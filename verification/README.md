# Harris corner pipeline of CvUtility, modelled in Dafny

This project models the numeric core of CvUtility's Harris corner detector.

The `Image` buffer is a W x H x C block of float samples. Samples are stored row-major with the channels of a pixel interleaved, at position `y*W*C + x*C + c`. Every read and write clamps each coordinate to the edge of the image.

On top of the buffer sit these operations:
- grey conversion;
- per-channel min/max normalisation;
- the separable Sobel gradient filter;
- the Gaussian kernel and the separable Gaussian blur;
- `HarrisDetect::FindFeature`.

`FindFeature` runs a fixed pipeline:
1. grey;
2. gradients;
3. structure tensor (dx², dx·dy, dy²);
4. blur of the tensor;
5. the response `det - k·trace²`;
6. normalisation of the response to [0, 255];
7. a raster scan for responses above the integer threshold.

Modelling choices:
- **Values.** The model is functional. An image is an immutable datatype, and every operation is a pure function. Samples are `real`s.
- **Errors.** An operation returns its output argument together with the `CVError` status. An early return of the error macro becomes an early `if … then … else` on that status.
- **Outputs on failure.** An output argument can be changed even on failure. `GaussianBlur` reallocates `g` before it looks at sigma. For this reason results are pairs (image, status) and not plain `Result`s. The pure kernel computation is the exception and returns `Result<Kernel>`.
- **Inputs untouched.** The `const` filters never change their source, by construction.
- **`exp`.** It is a parameter of subset type: any function whose values are all positive.
- **`ceil`.** It is the exact ceiling on reals. Its contract `r <= Ceil(r) < r + 1` is all the model relies on.

Modules:
- `CvErrors` (errors.dfy): the status codes, and a `Result` type.
- `Images` (image.dfy): layout, lifecycle, clamped access, copy and move.
- `Sums` (sums.dfy): left-to-right real sums, and the ceiling.
- `Transforms` (transforms.dfy): `RGB2Gray` and `Normalize`.
- `Filters` (filters.dfy): channels as planes over all of Z², and Sobel.
- `Blur` (blur.dfy): the kernel and `GaussianBlur`.
- `Harris` (harris.dfy): the detector.

Two behaviours of the class differ from what its interface leads a caller to expect, and the model follows the code in both (see Findings). First, a moved-from object would be expected to be empty with zero dimensions, but the move constructor and move assignment only null its data pointer. The object then reports empty but keeps its dimensions (`Images.MoveConstruct`). `FindFeature` tests only emptiness, so it rejects such an image with INPUT (`Harris.MovedFromImageRejected`). Second, assigning an empty image is expected to empty the target, but copy assignment leaves the target as it was (`Images.CopyAssign`).

## Model

| member | source | states |
|---|---|---|
| Images.Init | imageUtility/image.cpp:76-84 | a fresh object is empty, well formed and has zero dimensions |
| Images.Release | imageUtility/image.cpp:113-120 | after release the store is null and every dimension, the size and the debug switch are 0 |
| Images.Allocate | imageUtility/image.cpp:86-111 | INPUT exactly when a dimension is <= 0, and then the image is untouched; otherwise NOERROR with the given dimensions, size W*H*C, debug 0 and a readable store |
| Images.AllocateReplacesWholesale | imageUtility/image.hpp:20 | with the default freeMemory = 1, a successful allocation gives the same object as allocating into a fresh image, and the freeMemory flag makes no difference to the result |
| Images.Construct | imageUtility/image.cpp:20-24 | the sized constructor gives an allocated image of those dimensions, or an empty one when a dimension is not positive |
| Images.GetSize | imageUtility/image.hpp:25 | the stored size equals W*H*C and the store's length for an allocated image |
| Images.Clamp | imageUtility/image.cpp:124-137 | the clamped coordinate lies in [0, n-1], is the input when that is in range, and is the in-range point nearest the input |
| Images.OffsetOfPixel | imageUtility/image.cpp:139 | the address y*W*C + x*C + c of an in-range sample lies in [0, W*H*C) and decodes back to (x, y, c) |
| Images.PixelOfOffset | imageUtility/image.cpp:139 | every store position is the address of exactly one in-range sample |
| Images.OffsetsDistinct | imageUtility/image.cpp:139 | distinct in-range samples have distinct addresses |
| Images.ClampedOffset | imageUtility/image.cpp:122-139 | after clamping each axis, the address is always inside the store |
| Images.GetPixel | imageUtility/image.cpp:122-140 | any read of an allocated image, whatever its coordinates, returns a stored sample |
| Images.ReadClampsEachAxis | imageUtility/image.cpp:124-139 | a read equals the read at the clamped coordinates, one axis at a time: below 0 reads index 0, past the end reads the last index |
| Images.SameClampedRead | imageUtility/image.cpp:122-140 | reads whose coordinates clamp to the same pixel return the same sample |
| Images.ReadAddressesOffset | imageUtility/image.cpp:139 | an in-range read returns store cell y*W*C + x*C + c |
| Images.SetPixel | imageUtility/image.cpp:142-160 | a write is read back at the same coordinates; every other in-range sample and every field is unchanged |
| Images.ImageExtensionality | imageUtility/image.hpp:51-56 | two allocated images with equal fields and equal in-range reads are the same object |
| Images.Overwrite | imageUtility/image.cpp:364-378 | after a loop has written f(x, y, c) to every in-range sample of an allocated image, each in-range read gives f(x, y, c), and the shape and debug switch are kept |
| Images.CopyConstruct | imageUtility/image.cpp:26-33 | the copy constructor gives an exact copy of an allocated source and a fresh empty image for an empty one |
| Images.CopyAssign | imageUtility/image.cpp:51-61 | copy assignment gives an exact copy of an allocated source, and leaves the target as it was when the source is empty |
| Images.CopyAssignFromEmptyKeepsTarget | imageUtility/image.cpp:51-61 | assigning an empty image to an allocated 2x2x1 image leaves the target allocated, so the result is not a copy of the source |
| Images.CopyAssignFixed | imageUtility/image.cpp:51-61 | copy assignment that yields an exact copy of the source in every case, agreeing with the code whenever the source is allocated |
| Images.MoveConstruct | imageUtility/image.cpp:35-44 | the target takes every field of the source; the source's store becomes null while its dimensions and size stay |
| Images.MoveAssign | imageUtility/image.cpp:63-74 | move assignment leaves the target equal to the source and the source empty with its old shape, whatever the target held |
| Images.MovedFromIsDangling | imageUtility/image.cpp:35-44 | moving out of an allocated image leaves a dangling image (null store, positive dimensions), not the released state |
| Images.MoveConstructFixed | imageUtility/image.cpp:35-44 | a move that leaves the source empty with zero dimensions, with the same target as the code's move |
| Images.ConstantIsFlatBothWays | imageUtility/image.cpp:122-140 | a channel that is constant is constant along every row and every column |
| Sums.Ceil | imageUtility/image.cpp:404 | the ceiling is the least integer not below its argument: r <= Ceil(r) < r + 1 |
| Transforms.RGB2Gray | imageUtility/image.cpp:270-299 | three channels give a W x H x 1 image of 0.144·ch0 + 0.587·ch1 + 0.299·ch2 per pixel; one channel gives an exact copy; any other channel count gives INPUT with the output untouched |
| Transforms.MovedFromGrayRejected | imageUtility/image.cpp:292-296 | a moved-from image whose channel count is neither 1 nor 3 is rejected with INPUT and the output is left untouched, without any read of its null store |
| Transforms.GrayIsIdempotent | imageUtility/image.cpp:270-299 | converting the grey result again returns it unchanged with NOERROR |
| Transforms.GrayOfNeutralPixel | imageUtility/image.cpp:280-283 | a pixel with three equal channels v becomes 1.03·v, since the weights sum to 1.03 |
| Transforms.ChannelMin | imageUtility/image.cpp:311-323 | the channel minimum is at most every sample and is held by some pixel |
| Transforms.ChannelMax | imageUtility/image.cpp:311-323 | the channel maximum is at least every sample and is held by some pixel |
| Transforms.FlatChannelIffNoSpread | imageUtility/image.cpp:311-329 | min equals max exactly when the channel is constant, which is when the remap divides by zero |
| Transforms.RemapEnds | imageUtility/image.cpp:329 | the linear map sends min to lower and max to upper |
| Transforms.RemapMono | imageUtility/image.cpp:329 | the linear map is monotone when lower <= upper |
| Transforms.RemapBounded | imageUtility/image.cpp:329 | the linear map sends [min, max] into [lower, upper] |
| Transforms.Normalize | imageUtility/image.cpp:301-336 | INPUT exactly for an empty source (through the failing allocation); otherwise NOERROR, same shape, and each channel that is not constant remapped from [min, max] onto [lower, upper]; constant channels are reported as the division-by-zero case |
| Transforms.NormalizedChannel | imageUtility/image.cpp:325-333 | on a channel that is not constant every output sample is the remap of the source sample |
| Transforms.NormalizeHitsLower | imageUtility/image.cpp:325-333 | on a channel that is not constant some output sample equals lower |
| Transforms.NormalizeHitsUpper | imageUtility/image.cpp:325-333 | on a channel that is not constant some output sample equals upper |
| Transforms.NormalizeOrderPreserving | imageUtility/image.cpp:325-333 | with lower <= upper, outputs lie in [lower, upper] and keep the order of the source samples |
| Filters.ColumnPass | imageUtility/image.cpp:364-378 | the first pass's loop: at every in-range sample it writes the 3-tap sum of the given taps over the clamped reads at rows y-1, y, y+1 (the per-pixel formula the loop writes) |
| Filters.RowPass | imageUtility/image.cpp:380-393 | the second pass's loop: at every in-range sample it writes the 3-tap sum of the given taps over the clamped reads at columns x-1, x, x+1 (the per-pixel formula the loop writes) |
| Filters.Sobel | imageUtility/image.cpp:338-396 | an empty source gives INPUT with dX and dY untouched; otherwise NOERROR with both gradients allocated in the source's shape |
| Filters.WindowByColumns | imageUtility/image.cpp:364-393 | the 3 x 3 window sum equals a row pass over column passes (separability) |
| Filters.TwoPassesAreOneWindow | imageUtility/image.cpp:364-393 | reading the row pass over the column pass, with clamping of the intermediate image, gives the full 3 x 3 window of clamped reads of the source |
| Filters.SobelWindows | imageUtility/image.cpp:338-396 | dX is the sum over j, k of [-1,0,1][j]·[1,2,1][k]·I(clamp(x+j), clamp(y+k)), and dY is the same with the kernels swapped |
| Filters.SobelFlatColumns | imageUtility/image.cpp:364-393 | an image that depends on x only has dY = 0 |
| Filters.SobelFlatRows | imageUtility/image.cpp:364-393 | an image that depends on y only has dX = 0 |
| Filters.SobelFlat | imageUtility/image.cpp:338-396 | a constant image has dX = dY = 0 |
| Blur.KernelSize | imageUtility/image.cpp:404-406 | the size is odd, at least 6σ, less than 6σ + 2, and the least odd integer not below 6σ |
| Blur.SquareIsProduct | imageUtility/image.cpp:413 | the integer square used for the offsets is i·i |
| Blur.Gaussian | imageUtility/image.cpp:404-421 | the weights computed for a positive σ: KernelSize(σ) of them, centred at size/2 (the shape the computation fixes; the weight values are stated by Blur.KernelProportional) |
| Blur.GaussianKernel | imageUtility/image.cpp:398-430 | INPUT exactly when σ <= 0; otherwise a valid kernel: odd size, center size/2, positive weights, symmetric about the center, summing to 1 |
| Blur.RawTotalPositive | imageUtility/image.cpp:411-415 | every sampled exp value is positive, and so is their sum |
| Blur.RawSymmetric | imageUtility/image.cpp:412-416 | the samples at offsets i and -i are equal |
| Blur.DividedByTotal | imageUtility/image.cpp:417-421 | dividing every positive sample by their sum gives positive weights summing to 1 |
| Blur.KernelIsValid | imageUtility/image.cpp:398-430 | the computed kernel satisfies every clause of a valid kernel |
| Blur.KernelProportional | imageUtility/image.cpp:411-421 | weight t is the sample exp(-(t-center)² / (2σ²)) divided by the sum of all samples |
| Blur.DefaultKernelShape | imageUtility/image.cpp:404-407 | σ = 2.0 gives a kernel of 13 weights centred at 6 |
| Blur.HorizontalPass | imageUtility/image.cpp:462-473 | the horizontal loop: at every in-range sample it writes the kernel-weighted sum of the clamped reads at columns x + t - center (the per-pixel formula the loop writes) |
| Blur.VerticalPass | imageUtility/image.cpp:475-486 | the vertical loop: at every in-range sample it writes the kernel-weighted sum of the clamped reads of the intermediate image at rows y + t - center (the per-pixel formula the loop writes) |
| Blur.GaussianBlur | imageUtility/image.cpp:432-489 | an empty source gives INPUT with g untouched; otherwise g is reallocated to the source's shape; NOERROR exactly when the source is not empty and σ > 0, INPUT otherwise, so σ <= 0 still reallocates g |
| Blur.HorizontalPassAnyRow | imageUtility/image.cpp:475-480 | the vertical pass's clamped read of the intermediate image at any row equals the horizontal pass along that row |
| Blur.BlurPixel | imageUtility/image.cpp:460-486 | each blurred sample is the kernel pass down the column of the kernel passes along the rows around it, with clamped reads of the source |
| Blur.ConvolveAtLeast | imageUtility/image.cpp:464-469 | a pass of non-negative weights summing to 1 over reads >= lo is >= lo |
| Blur.ConvolveAtMost | imageUtility/image.cpp:464-469 | a pass of non-negative weights summing to 1 over reads <= hi is <= hi |
| Blur.BlurAtLeast | imageUtility/image.cpp:432-489 | blurring never takes a channel below its lower bound |
| Blur.BlurAtMost | imageUtility/image.cpp:432-489 | blurring never takes a channel above its upper bound |
| Blur.BlurKeepsConstant | imageUtility/image.cpp:432-489 | a constant channel stays constant, with the same value |
| Harris.Tensor | featureDetect/harrisDetect.cpp:31-39 | the tensor loop: the result has the shape of the W x H x 3 allocation, and each pixel holds dx², dx·dy, dy² of channel 0 of the two gradients (the per-pixel formula the loop writes) |
| Harris.TensorOfIsRankOne | featureDetect/harrisDetect.cpp:33-37 | dx² and dy² are non-negative, and dx²·dy² = (dx·dy)²: the tensor of one gradient is singular |
| Harris.TensorDiagonalNonNegative | featureDetect/harrisDetect.cpp:31-39 | channels 0 and 2 of the tensor image are non-negative everywhere |
| Harris.BlurredDiagonalNonNegative | featureDetect/harrisDetect.cpp:41-43 | after the blur, channels 0 and 2 stay non-negative, so every trace is non-negative |
| Harris.Response | featureDetect/harrisDetect.cpp:47-60 | the response loop: the result is W x H x 1, and each pixel holds h11·h22 - h12² - k·(h11+h22)² of the blurred tensor there (the per-pixel formula the loop writes) |
| Harris.SingularResponseNotPositive | featureDetect/harrisDetect.cpp:55-57 | with k >= 0, a singular tensor (det = 0) has response <= 0 |
| Harris.UnblurredResponseNotPositive | featureDetect/harrisDetect.cpp:33-37 | with k >= 0, the response of a single gradient's tensor is <= 0 |
| Harris.HarrisResponse | featureDetect/harrisDetect.cpp:14-64 | the stages fail with INPUT exactly when the input is empty, has a channel count other than 1 or 3, or σ <= 0; otherwise the normalised response is a readable W x H x 1 image |
| Harris.ExtractCorners | featureDetect/harrisDetect.cpp:65-72 | the scan lists exactly the in-range pixels whose normalised response exceeds thd, in strictly increasing raster order |
| Harris.FindFeature | featureDetect/harrisDetect.cpp:9-72 | NOERROR exactly for a non-empty 1- or 3-channel input with σ > 0; every error is INPUT with an empty list; on success the list holds exactly the pixels above thd in raster order, and a constant input gives an empty list |
| Harris.NothingAboveNothingFound | featureDetect/harrisDetect.cpp:65-72 | if no pixel is above the threshold, a list of pixels above it is empty |
| Harris.GrayOfFlat | featureDetect/harrisDetect.cpp:19-21 | grey conversion of an image constant in every channel is constant |
| Harris.TensorOfZeroGradients | featureDetect/harrisDetect.cpp:31-39 | vanishing gradients give a tensor that is 0 in all three channels |
| Harris.ResponseOfFlat | featureDetect/harrisDetect.cpp:49-60 | a blurred tensor with constant channels gives a constant response |
| Harris.MovedFromImageRejected | featureDetect/harrisDetect.cpp:14-17 | a moved-from image, which has dimensions but no store, is rejected as empty with INPUT before any stage runs |
| Harris.FlatImageHasNoCorners | featureDetect/harrisDetect.cpp:19-72 | for a constant input the response channel is constant, so normalising it divides by zero for every sample and no pixel is reported |
| Harris.DefaultParamKernel | featureDetect/harrisDetect.hpp:11 | the default σ = 2.0 is accepted and blurs with 13 weights |

## Left out

- JPEG reading and writing (`ReadJpegImage`, `WriteJpegImage`): libjpeg and file I/O.
- `DrawPoint` and `DrawLine`: visualisation of results only.
- The debug branch of `FindFeature` (harrisDetect.cpp:74 onwards): it is driven by the detector's own `FeatureDetect::mDebug` flag, which the model does not have, and only writes files, prints and re-normalises intermediate images; its statuses are not modelled.
- The kernel dump in `GaussianBlur`: it is driven by the source image's debug switch and only prints. The model carries the switch (a one-channel grey copy inherits the input's through copy assignment) but no output depends on it.
- `CVErrorMessage::Show`: it only prints. The macro is kept as an early return of the status.
- The sample program `samples/harris/main.cpp`: an entry point that wires file I/O.
- Float behaviour. IEEE rounding, overflow to infinity and the float type of the constants are replaced by exact `real` arithmetic.
- NaN samples. A constant channel makes `Normalize` divide 0 by 0 and store NaN in every sample. The model stores 0.0 instead and records the channel in `nanChannels`. The extraction treats those samples as not above the threshold, as the comparison with NaN is false.
- `exp`: only its positivity is assumed. It is a parameter, so no exact weight values are modelled.
- The Gaussian kernel's own `kernel.Allocate(size, 1, 1)`: its size is always positive, so it cannot fail, and the weights are modelled as a sequence.
- Memory mechanics: raw pointers, `memcpy`, the leak of the old store in move assignment, and the stack arrays in `Normalize`.
- The MEMORY branch of `Allocate` after `new`: `new` throws instead of returning null, so the branch cannot be reached.
- Uninitialised storage: fresh storage is modelled as 0.0. On success every filter overwrites all of it. One path returns it unwritten: `GaussianBlur` with σ <= 0 reallocates `g` before the kernel computation fails, so `g` comes back holding uninitialised samples. The model gives 0.0 there, and no contract states those values.
- `int` overflow of `width * height * channel` and of the addresses: integers are unbounded in the model.
- Aliasing of source and output (for example `img.RGB2Gray(img)`) and self-move (`a = std::move(a)`, which in the code nulls `a`'s own data pointer, so the samples are lost and the store leaks): every output is a separate value in the model, so `Images.MoveAssign` describes only a move between distinct objects.
- Images.GetPixel: reading an empty or dangling image dereferences null in the code. The model requires an allocated image instead of modelling the crash.
- Transforms.RGB2Gray, Transforms.Normalize, Images.CopyConstruct, Images.CopyAssign: a moved-from (dangling) source is excluded only where the code reads it through the null pointer: the three-channel conversion, the one-channel copy, `Normalize` (which allocates and then reads) and both copies (which `memcpy` from it). `RGB2Gray` accepts a dangling source of any other channel count and rejects it with INPUT (`Transforms.MovedFromGrayRejected`).
- Transforms.RGB2Gray: the MEMORY status of the one-channel copy is modelled but can never occur for an allocated source.

## Findings

| source | as written | input that shows it | evidently intended | confidence | as-written member | corrected member |
|---|---|---|---|---|---|---|
| imageUtility/image.cpp:51-61 | copy assignment allocates the source's dimensions first; for an empty source that allocation is rejected and the target keeps its old store and samples | target = an allocated 2x2x1 image, source = a default-constructed empty image; after `target = source`, `target.IsEmpty()` is still 0 | the target becomes a copy of the source (empty), as the copy constructor does | not executed | Images.CopyAssignFromEmptyKeepsTarget | Images.CopyAssignFixed |
| imageUtility/image.cpp:35-44 | the move constructor nulls only the source's data pointer and leaves its width, height, channel and size in place | moving from an allocated 2x2x1 image leaves a source with `IsEmpty()` = 1 and `GetWidth()` = 2; `Normalize` on it reads through the null pointer | the moved-from object is empty with zero dimensions | not executed | Images.MovedFromIsDangling | Images.MoveConstructFixed |
