# Parallel image processing: a verified model

This project models the computational core of four small image-processing
programs that share one 4-byte RGBA `pixel` record:

- **task1/main.c** averages two images pixel by pixel (`avg_pixel`, alpha 100).
- **task3/main.c** runs a distributed convolution:
  - The root splits the image into horizontal bands of rows, and the first
    `height % size` ranks get one row more.
  - Each rank receives its band between two halo rows of radius
    `(kernelDim - 1) / 2`.
  - In each iteration, neighbours exchange halos, `applyKernel` convolves the
    tile (unsigned 32-bit accumulators, a scale factor, a cap at 255), and the
    two buffers swap.
  - At the end the root gathers the bands back.
- **task3/morph.c** computes a feature-line image morph:
  - Feature-line records alternate between source and destination.
  - Each rank fills a slab of `height / size` rows of the morph map, for every
    frame `t = i / steps`, `i = 0 .. steps`.
  - The root gathers equal-sized slabs.
- **task2/mpi_attempt.c** upscales an image by bilinear interpolation, with
  the same equal-slab scheme over the output rows.

The model has one Dafny module per concern:

| module | file | contents |
|---|---|---|
| `Pixels` | `pixel.dfy` | pixel record, byte layout |
| `Average` | `average.dfy` | task1 |
| `Partition` | `partition.dfy` | row, byte and displacement plan |
| `Convolution` | `convolution.dfy` | `applyKernel` |
| `Locality` | `locality.dfy` | a pass over a window equals a pass over the image |
| `Rows` | `rows.dfy` | row slices, copy into a buffer |
| `Halo` | `halo.dfy` | exchange schedule and one pair exchange |
| `Distribution` | `distribution.dfy` | scatter and gather |
| `Engine` | `engine.dfy` | iteration loop on values, end-to-end theorem |
| `Iteration` | `job.dfy` | iteration loop on arrays |
| `EdgeHalos` | `edge_halos.dfy` | loop exactly as written (source exchange offsets, kernel over the whole tile), and its counterexample |
| `Slabs` | `slabs.dfy` | equal-slab scheme shared by the morph and the upscaler |
| `Morph` | `morph.dfy` | morph driver |
| `Upscale` | `upscale.dfy` | upscaler |

The main result is `Engine.JobMatchesReference`. Under two conditions, the
distributed convolution gives exactly the single-worker result after any
number of iterations and on any number of ranks:

- every rank owns at least `radius` rows;
- the kernel dimension is odd.

This holds for the engine with the corrected halo offsets, which convolves
only the owned rows.

The equal-slab programs (the morph and the upscaler) have a different
outcome. `Slabs.RootBufferRows`, `Morph.MorphFrameRows` and
`Upscale.UpscaledImageRows` prove what the root ends up with: the first
`size * (height / size)` rows are computed, and the last `height % size`
rows keep whatever the uninitialised buffer held.

## Model

| member | source | states |
|---|---|---|
| Average.Mean | task1/main.c:50-52 | the truncated mean of two bytes lies between them, and twice it is the sum or the sum minus one |
| Average.AvgPixel | task1/main.c:48-56 | each colour channel is the truncated mean of the two inputs, within their range; alpha is 100 |
| Average.AvgPixelSymmetric | task1/main.c:48-56 | averaging is symmetric in its two arguments |
| Average.AvgPixelSelf | task1/main.c:48-56 | averaging a pixel with itself keeps its colour and sets alpha to 100 |
| Average.AverageImages | task1/main.c:58-60 | every output index below `dimensions` is the average of the two inputs there; nothing beyond changes; each index is written exactly once |
| Convolution.Cap | task3/main.c:51-53 | the stored channel is the value when at most 255, else 255 |
| Convolution.OutputPixel | task3/main.c:47-60 | alpha is always 255; all-zero accumulators give black; otherwise each channel is the scaled accumulator capped at 255 |
| Convolution.AccumulateRow | task3/main.c:35-45 | the inner loop adds one kernel row's in-bounds terms to the accumulators modulo 2^32 |
| Convolution.AccumulateWindow | task3/main.c:32-46 | the two kernel loops leave in each accumulator the window sum modulo 2^32 |
| Convolution.StorePixel | task3/main.c:47-60 | the one output pixel becomes the capped, scaled accumulators with alpha 255, or opaque black when all three are 0; nothing else changes |
| Convolution.ApplyKernelRow | task3/main.c:31-61 | one image row of the output becomes the convolved row; every other pixel is unchanged |
| Convolution.ApplyKernelRows | task3/main.c:30-62 | the rows from `firstRow` to `lastRow` are convolved; every other pixel is unchanged |
| Convolution.ApplyKernel | task3/main.c:28-63 | the output buffer equals the convolution of the input, pixel by pixel |
| Convolution.ZeroImageGivesOpaqueBlack | task3/main.c:28-63 | a tile whose colour channels are all 0 becomes opaque black `(0, 0, 0, 255)` at every pixel, for any kernel and factor |
| Convolution.IdentityKernelKeepsColours | task3/main.c:28-63 | with an odd identity kernel and a factor that keeps values up to 255, every pixel keeps its r, g, b and gets alpha 255 |
| Convolution.ConvolveTileAt | task3/main.c:28-63 | pixel `(y, x)` of the convolved tile is the kernel applied at `(y, x)` |
| Convolution.ConvolvedAtRowMajor | task3/main.c:51-59 | output index `y * width + x` holds the pixel of row `y`, column `x` |
| Locality.ConvolvedLocal | task3/main.c:38-44 | on a tile whose rows match the image's rows, blank outside it, the kernel at an inner row gives the pixel it gives on the whole image |
| Partition.ComputePlan | task3/main.c:131-156 | the three arrays hold each rank's row count, byte count and displacement |
| Partition.FirstRowClosedForm | task3/main.c:136-154 | rank `i`'s first row is `i * (height / size) + min(i, height % size)` |
| Partition.RowsCoverHeight | task3/main.c:136-145 | the row counts sum to the image height |
| Partition.RowCountsBalanced | task3/main.c:141-145 | row counts differ by at most one, and a rank gets the extra row exactly when its index is below `height % size` |
| Partition.OwnerUnique | task3/main.c:141-154 | no image row belongs to two ranks |
| Partition.DisplacementIsFirstRow | task3/main.c:147-154 | each displacement is the byte offset of the rank's first row |
| Partition.ByteRangesTile | task3/main.c:147-154 | each byte range starts where the previous one ends, and the last one ends at the image size in bytes |
| Partition.ByteRangesDisjoint | task3/main.c:147-154 | the byte ranges of two distinct ranks do not overlap |
| Distribution.ScatterTile | task3/main.c:170-199 | a received tile has the rank's rows between two blank halos of `radius` rows |
| Distribution.PaddedTile | task3/main.c:170-189 | a band written `width * radius` pixels into a fresh tile sits between two blank halos |
| Distribution.ScatterBytes | task3/main.c:191-199 | the bytes the root sends rank `i` are the serialised share of rank `i` |
| Distribution.GatherBytes | task3/main.c:276-284 | the bytes at rank `i`'s displacement of the gathered buffer are rank `i`'s contribution |
| Distribution.GatherShares | task3/main.c:276-284 | concatenating the shares in rank order gives the image back |
| Distribution.ScatterGatherRoundTrip | task3/main.c:191-199 | gathering the owned rows of the scattered tiles gives back the original image |
| Pixels.DeserializeSerialize | task3/main.c:147 | reading the transported bytes back as pixels gives the original pixels |
| Pixels.SerializeSlice | task3/main.c:152-153 | a byte range at a multiple of 4 is the serialisation of the matching pixel range |
| Halo.ScheduleByRole | task3/main.c:238-251 | rank 0 exchanges only below, the last rank only above, even inner ranks top then bottom, odd inner ranks bottom then top, and a single rank not at all |
| Halo.SchedulePeersExist | task3/main.c:238-251 | every scheduled peer is a valid rank and no direction is scheduled twice |
| Halo.SchedulePairsUp | task3/main.c:238-251 | for every adjacent pair, the upper rank sends down and the lower rank sends up |
| Halo.OffsetsRespectLayout | task3/main.c:214-231 | the corrected send rows lie in the owned rows and the receive rows in a halo |
| Halo.AsWrittenOffsetsMatchIffRadiusOne | task3/main.c:222-230 | the offsets as written (row 1 and row `h + 1`) equal the corrected ones exactly when the radius is 1 |
| Halo.ExchangeRefreshesUpperHalo | task3/main.c:227-231 | after an exchange, the upper tile keeps its top halo and owned rows, and its bottom halo holds the lower tile's first owned rows |
| Halo.ExchangeRefreshesLowerHalo | task3/main.c:218-225 | after an exchange, the lower tile keeps its owned rows and bottom halo, and its top halo holds the upper tile's last owned rows |
| Halo.AsWrittenExchangeCorrectForRadiusOne | task3/main.c:218-232 | with radius 1 the as-written exchange equals the corrected one |
| Halo.AsWrittenExchangeClobbersOwnedRow | task3/main.c:228-231 | with radius 2 the as-written exchange overwrites an owned row of the upper tile |
| Halo.CopyRows | task3/main.c:214-231 | a send-receive copies `radius` rows of the sender into the receiver at the receive row and changes nothing else |
| Halo.ExchangeHalos | task3/main.c:218-232 | the two tiles become the exchange of their old contents |
| Engine.Radius | task3/main.c:159 | for an odd kernel dimension the radius is half of it, rounded down |
| Engine.JobWithoutIterations | task3/main.c:191-284 | with no iteration the gathered image is the input |
| Engine.ExchangeAllEffect | task3/main.c:238-251 | after every pair has exchanged, each tile keeps its owned rows and its halos hold the neighbours' boundary rows |
| Engine.ConvolveOwnedShare | task3/main.c:254-261 | a kernel pass over a tile holding the right window yields the rank's share of the whole-image pass |
| Engine.RunTracks | task3/main.c:234-267 | after each iteration the owned rows of every tile are the rank's share of the reference result, and the outer halos are blank |
| Engine.JobMatchesReference | task3/main.c:234-284 | the gathered result equals `n` single-worker kernel passes over the image |
| Iteration.ExchangePhase | task3/main.c:238-251 | the tile arrays end up holding the exchanged tiles |
| Iteration.ConvolveOwnedRows | task3/main.c:254-261 | the second buffer's owned rows become the convolved owned rows; its halos stay |
| Iteration.KernelPass | task3/main.c:254-261 | every rank's second buffer becomes its kernel pass; the current buffers do not change |
| Iteration.StepIsPhases | task3/main.c:234-267 | one step is the exchange phase followed by the kernel phase, with the buffers swapped |
| Iteration.IterationBody | task3/main.c:234-267 | one iteration on the arrays takes the buffers to the step of the model |
| Iteration.Iterate | task3/main.c:234-267 | after the loop the buffer pair is the original or swapped (line 263), and holds the `iterations`-fold step |
| Iteration.Allocate | task3/main.c:170-212 | fresh, pairwise distinct buffers holding the given tiles |
| Iteration.RunJob | task3/main.c:170-284 | the whole job on arrays returns the gathered image of the model |
| EdgeHalos.ExchangePairsAsWrittenRadiusOne | task3/main.c:218-251 | with radius 1, the exchange phase with the source's offsets equals the corrected one, pair after pair |
| EdgeHalos.AsWrittenOwnedRowsAgree | task3/main.c:254-261 | on the same tile, convolving the whole tile as written and convolving only the owned rows agree on the owned rows |
| EdgeHalos.AsWrittenStepRadiusOne | task3/main.c:234-263 | with radius 1, one iteration as written and one corrected iteration leave the same owned rows in every tile |
| EdgeHalos.AsWrittenEdgeHalosLeak | task3/main.c:234-267 | with two box-kernel iterations on a 1x1 image, the loop as written yields red 3 where the reference and the corrected engine yield red 1 |
| Slabs.SlabRows | task3/morph.c:270 | `size` slabs of `height / size` rows fit the height, and exactly `height % size` rows are left over |
| Slabs.SlabsDisjoint | task3/morph.c:270-274 | no row falls in two ranks' slabs |
| Slabs.SlabsCover | task3/morph.c:270-274 | a row is in some rank's slab exactly when it is below `size * (height / size)` |
| Slabs.LocalIndexInBounds | task3/morph.c:296-300 | the local index of a pixel of the slab lies inside the slab buffer |
| Slabs.LocalIndexInjective | task2/mpi_attempt.c:144-153 | two pixels of a slab never share a local index |
| Slabs.LocalIndexOnto | task2/mpi_attempt.c:144-153 | every slab-buffer index is the local index of one slab pixel |
| Slabs.SlabImageAt | task3/morph.c:296-300 | the slab image holds pixel `(i, j)` at its local index |
| Slabs.OpaqueSlab | task3/morph.c:300 | a slab of opaque pixels is opaque at every index |
| Slabs.SlabImageSplit | task3/morph.c:274 | a slab of `a + b` rows is the slab of `a` rows followed by the next `b` rows |
| Slabs.FillRow | task3/morph.c:275-300 | one row of the slab buffer becomes the image row; the rest is unchanged |
| Slabs.FillSlab | task3/morph.c:274-302 | the first `width * rows` entries of the buffer become the slab image; the rest is unchanged |
| Slabs.EqualPartsConcat | task2/mpi_attempt.c:165 | in a gather of equal parts, part `r` sits at `r * count` |
| Slabs.GatherOffset | task3/morph.c:350-353 | the bytes at rank `r`'s offset in the gathered buffer are rank `r`'s serialised slab |
| Slabs.GatherSlabImages | task3/morph.c:350-353 | concatenating the first `m` slabs gives the image of the first `m * rows` rows |
| Slabs.RootBufferRows | task3/morph.c:344-353 | the root buffer holds the computed rows, then the `height % size` rows it held before |
| Morph.SplitInterleaveRoundTrip | task3/morph.c:110-118 | interleaving the source and destination lines gives the records back |
| Morph.InterleaveSplitRoundTrip | task3/morph.c:110-118 | splitting interleaved records gives the source and destination lines back |
| Morph.LoadLines | task3/morph.c:104-122 | record `k` goes to array `k % 2` at index `k / 2`: the first array holds the source lines, the second the destination lines |
| Morph.FrameTimes | task3/morph.c:498-501 | frame 0 is at time 0, frame `steps` at time 1, and times increase |
| Morph.MorphSlab | task3/morph.c:274-300 | a rank's slab has `width * (height / size)` pixels, all with alpha 255 |
| Morph.SlabFitsMap | task3/morph.c:494 | the slab fits in the allocated morph map |
| Morph.MorphKernel | task3/morph.c:252-303 | the morph map's prefix becomes the rank's slab for time `t`; the rest is unchanged |
| Morph.DoMorph | task3/morph.c:350-353 | the map is filled as by the kernel, and the bytes sent are the serialised slab, `4 * width * (height / size)` of them |
| Morph.MorphSteps | task3/morph.c:498-503 | `steps + 1` frames at times `i / steps`, each sending its slab; the map ends with the last frame's slab |
| Morph.MorphFrameRows | task3/morph.c:344-353 | the gathered frame is the morph of the first `size * (height / size)` rows, followed by the uninitialised rest |
| Upscale.Clamp | task2/mpi_attempt.c:31-34 | a clamped coordinate is inside, and a coordinate already inside is unchanged |
| Upscale.CoordBounds | task2/mpi_attempt.c:148-149 | for an output row inside the image, the floor coordinate is inside the input and the ceiling is at most the input size |
| Upscale.ClampedCornersInside | task2/mpi_attempt.c:31-34 | the clamped corners read inside the input, and differ from the as-written corners only where a ceiling equals the input size |
| Upscale.ClampedCornersAgree | task2/mpi_attempt.c:31-34 | where the as-written corners are inside, clamping changes nothing |
| Upscale.AsWrittenBilinearReadsPastImage | task2/mpi_attempt.c:31-49 | with the default scales 2 and 8, the last output pixel reads at or past the end of the input |
| Upscale.Bilinear | task2/mpi_attempt.c:26-51 | the pixel is the blend of the four clamped corner pixels, with alpha 255 |
| Upscale.UpscaledSlab | task2/mpi_attempt.c:137-153 | a rank's slab has `outW * (outH / size)` pixels, all opaque |
| Upscale.UpscaleSlab | task2/mpi_attempt.c:137-155 | the local buffer becomes the rank's upscaled slab |
| Upscale.UpscaledImageRows | task2/mpi_attempt.c:160-165 | the gathered buffer is the upscaled first `size * (outH / size)` rows, then the uninitialised rest |

## Left out

- The MPI transport is not modelled. Broadcasts, scatters, gathers and send-receives become copies between sequences or arrays.
- Message tags, barriers and the concurrency of ranks are not modelled. The halo exchange is modelled pair by pair in rank order. `Halo.SchedulePairsUp` shows that the schedule pairs every adjacent couple.
- File and image I/O is not modelled: stb image loading and writing, `loadImage`, `saveImage`, `imgRead`, `imgWrite`, argument parsing. The image utilities and argument utilities are not part of this model.
- The parsing of the feature-line file (`fscanf`, `getc`) is not modelled. `Morph.LoadLines` takes the parsed records as a sequence and requires at least `2 * numLines` of them; a short file is not modelled.
- Floating point is left abstract:
  - The convolution's `kernelFactor` is an abstract function from accumulator to scaled value (`Convolution.Scale`).
  - The morph's warp, clamp, bilinear colour lookup and colour blend form one `colour` function of frame, row and column.
  - The upscaler's weighted blend of the four corners is a `mix` parameter.
  - Corner coordinates are computed exactly, as floors and ceilings of `i * inH / outH`. The single-precision rounding of `row` and `col` is not modelled.
- `simpleLineInterpolate`, `warp` and the other geometric helpers of morph.c are not modelled, because they work in floating point. They are part of the `colour` parameter.
- Morph.FrameTimes: frame times are exact rationals, not single-precision floats. `steps == 0`, where `1.0 / steps` is not finite, is excluded.
- Timing (`MPI_Wtime`) and all `printf` output are not modelled.
- The upscaler's output size (`in_width * scale_x`, from `atof`) is a parameter, not computed.
- morph.h and the image utilities are not part of this model. The pixel record is taken to be four unsigned chars, r, g, b, a, as task1/main.c declares it. `newImage` is taken to return zero-filled pixels (`Pixels.Blank`).
- Memory from `malloc` (the root's gather buffer) is modelled as an arbitrary sequence `recv` of the right length.
- Freeing memory is not modelled.
- Partition.ComputePlan: the byte counts and displacements are unbounded integers. In the source they are 32-bit `int` products (task3/main.c:147-153) that overflow once an image exceeds 2^31 bytes.
- Morph.DoMorph: `bytes_to_send` (task3/morph.c:350) is an unbounded integer. The source's 32-bit `int` overflows for maps over 2^31 bytes.
- Upscale.CoordBounds: the coordinates use unbounded `i * inH`. The source computes `i * (in_height)` in 32-bit `int` before the float division (task2/mpi_attempt.c:148), which overflows when `out_height * in_height` exceeds 2^31, for example from about 16 400 input rows at the default scale 8.
- Average.AverageImages: requires both inputs to hold `dimensions` pixels. The source takes `width` and `height` from whichever image it loads last (task1/main.c:29-30, 42), so it reads past the end of the first image when that one is smaller; this read is not modelled.
- The source does not check that the image has at least as many rows as there are ranks. The model follows the code: such ranks own zero rows. `Engine.JobMatchesReference` additionally requires every rank to own at least `radius` rows.

## Findings

| source | as written | input that shows it | evidently intended | confidence | as-written member | corrected member |
|---|---|---|---|---|---|---|
| task3/main.c:218-231 | halos are sent from row 1 and received at row `h + 1`, which is right only for radius 1 | radius 2, tiles of two owned rows: the lower neighbour's rows overwrite owned row 3 of the upper tile | send the `radius` rows starting at row `radius` (top) or row `h` (bottom); receive into row 0 or row `radius + h` | high, not executed | Halo.AsWrittenExchangeClobbersOwnedRow | Halo.ExchangeRefreshesUpperHalo |
| task3/main.c:254-261 | `applyKernel` runs over the whole tile, halos included, so the halo rows that no exchange refreshes (above rank 0, below the last rank) pick up kernel output and feed it back | 1x1 red-1 image, one rank, 3x3 box kernel, two iterations: red 3 instead of red 1 | convolve only the owned rows, so the outer halos stay blank as the image's outside | high, not executed | EdgeHalos.AsWrittenEdgeHalosLeak | Engine.JobMatchesReference |
| task2/mpi_attempt.c:31-49 | the ceiling coordinates can equal the input height or width, so `Im[cm*width+fn]` and `Im[fm*width+cn]` read past the last row or column | default scales (out = 2 x width, 8 x height), output pixel `(8h - 1, 2w - 1)`: `cm = h`, `cn = w` | clamp the ceilings to `h - 1` and `w - 1` | high, not executed | Upscale.AsWrittenBilinearReadsPastImage | Upscale.ClampedCornersInside |
