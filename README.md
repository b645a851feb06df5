# Digital image processing exercises: a verified model of the core

This project models the array arithmetic at the heart of the
Digital_Image_Processing exercises, and proves properties of that model in Dafny:

- **Lifting ("lazy") wavelet transform.**
  - Python: 3/lib/lazy_wavelet.py, 1D recursive and 2D quadrant-recursive.
  - C++: 3/lib/lazy/lifting.hpp, single-level 1D and recursive 2D with the ×1.4 coarse-band scale.
  - The steps are the LeGall 5/3 predict and update lifting steps of ISO/IEC 15444-1 (JPEG 2000 Part 1) Annex F. They use periodic wrap-around and exact arithmetic.
- **Haar transform.**
  - 3/lib/haar.hpp: normalised and unnormalised.
  - 3/lib/haar.cpp: unnormalised, plus `denoise`.
- **Coefficient thresholding.**
  - Soft and hard `denoise` in 3/lib/haar.cpp, 3/lib/haar_denoising.cpp and 3/lib/lazy/lazy_denoising.cpp.
  - `cutoff_reduce` in the three compression programs: 3/lib/haar_compression.cpp, 3/lib/haar/haar_compression.cpp and 3/lib/lazy/lazy_compression.cpp.
- **Run-length codec over quantised coefficients.**
  - `runlength_encode` and `recreate_image` in 3/lib/haar/haar_compression.cpp and 3/lib/lazy/lazy_compression.cpp.
  - The earlier draft encoder of 3/lib/haar_compression.cpp.
- **Gaussian and Laplacian pyramids.**
  - 5/lib/gaussian.py: 2 × 2 block means with a zero-order-hold expand. numpy's broadcasting of the strided slices is modelled exactly: an odd side reduces only when it is 1 or 3, and the updates fail when a level of side 3 meets one of side 2.
  - 3/lib/pyramids.py: the 5-tap Burt–Adelson reduce and expand, pyramid reconstruction, mask blending and pyramid denoising. The pyramids use `reduce_` as written, ending formula and `IndexError` on sides below 4 included.
- **Spatial enhancement** in 1/image_enhancement.cpp:
  - the kernel constructors;
  - `apply_filter`, in convolution and median mode;
  - the CDF equalisation map and `global_histogram_equilisation`.
- **Histogram matching**: `match_hist` of 5/lib/histogram.py.
- **Causal neighbourhoods and best-match search** for texture synthesis: 5/lib/non_parametric.py and 5/lib/npcolor.py.
- **The disc blur kernel**: 2/blurring.py and 2/lib/blurring.py.
- **Row averaging**: 0/img_process.py and 0/img_process.cpp.

Images are `seq<seq<real>>` (module `Images`). Code that updates arrays in place is modelled by methods over `array2<real>`, `array<real>` or `seq` fields. Each such method is proved against a specification function. The round trips, invariants and bounds are lemmas about those functions.

Samples are exact reals. The √2 of the normalised Haar transform is a parameter `s` with `s > 0` and `s·s = 2`. A C++ `assert`, or a read outside a matrix, is a precondition. A Python exception is an `Option` or `Result` error wherever its condition can be stated exactly.

The files:

| file | models |
|---|---|
| wrappers.dfy | `Option` and `Result` |
| images.dfy | matrices, cell, row and column updates, transposition |
| lifting_steps.dfy | predict/update steps and their inverses; row and column passes |
| quadrants.dfy | the parity-band quadrant reorganisation |
| lifting_2d.dfy | the recursive 2D lifting transform shared by both languages |
| lazy_wavelet_py.dfy | 3/lib/lazy_wavelet.py |
| lifting_cpp.dfy | 3/lib/lazy/lifting.hpp |
| haar.dfy | 3/lib/haar.hpp and 3/lib/haar.cpp |
| thresholding.dfy | `denoise` and `cutoff_reduce` |
| runlength.dfy | byte quantisation, the run-length encoders and `recreate_image` |
| gaussian.dfy | 5/lib/gaussian.py |
| pyramid_reduce.dfy, pyramid_expand.dfy, pyramids.dfy | 3/lib/pyramids.py |
| filters.dfy, equalisation.dfy | 1/image_enhancement.cpp |
| histogram.dfy | 5/lib/histogram.py |
| windows.dfy, nonparametric.dfy, npcolor.dfy | 5/lib/non_parametric.py and 5/lib/npcolor.py |
| disc.dfy | the two `disc` functions |
| row_average.dfy | row averaging |

## Model

| member | source | states |
|---|---|---|
| LiftingSteps.PredictInPlace | 3/lib/lazy_wavelet.py:21-23 | the predict loop over the odd slots and the wrap-around write leave the buffer equal to `Predict` of its old contents |
| LiftingSteps.Predict | 3/lib/lazy_wavelet.py:21-23 | the predict step of one level: each odd slot below `len − 1` loses the mean of its even neighbours, the wrap slot loses the mean of slot `len − 2` and slot 0; the contract states that the length is kept |
| LiftingSteps.Update | 3/lib/lazy_wavelet.py:25-27 | the update step: each even slot from 2 on gains a quarter of its predicted neighbours, slot 0 a quarter of slot 1 and the wrap slot; the contract states that the length is kept |
| LiftingSteps.UnUpdate | 3/lib/lazy_wavelet.py:57-59 | the inverse update: the same quarters subtracted, slot 0 first; the contract states that the length is kept |
| LiftingSteps.UnPredict | 3/lib/lazy_wavelet.py:61-63 | the inverse predict: the same means added back, wrap slot first; the contract states that the length is kept |
| LiftingSteps.UpdateInPlace | 3/lib/lazy_wavelet.py:25-27 | the update loop over the even slots and the write to slot 0 leave the buffer equal to `Update` of its old contents |
| LiftingSteps.UnUpdateInPlace | 3/lib/lazy_wavelet.py:57-59 | the inverse update (slot 0 first, then the even slots) leaves the buffer equal to `UnUpdate` of its old contents |
| LiftingSteps.UnPredictInPlace | 3/lib/lazy_wavelet.py:61-63 | the inverse predict (wrap slot first, then the odd slots) leaves the buffer equal to `UnPredict` of its old contents |
| LiftingSteps.PredictOdd | 3/lib/lazy_wavelet.py:21-22 | an odd slot i below `len-1` becomes x[i] - (x[i-1] + x[i+1])/2, and its even neighbours are not changed by the predict |
| LiftingSteps.PredictTail | 3/lib/lazy_wavelet.py:23 | the wrap slot becomes x[w] - (x[len-2] + x[0])/2; slots 0 and len-2 and every slot from len-1 on other than w keep their values |
| LiftingSteps.UpdateEven | 3/lib/lazy_wavelet.py:25-26 | an even slot i from 2 up becomes p[i] + (p[i-1] + p[i+1])/4, reading the predicted odd neighbours |
| LiftingSteps.UpdateTail | 3/lib/lazy_wavelet.py:27 | slot 0 becomes p[0] + (p[1] + p[w])/4; slot 1, the wrap slot and every slot from `len` on keep their values |
| LiftingSteps.LevelFrame | 3/lib/lazy_wavelet.py:21-30 | one level (either direction) changes no slot at or beyond the active length other than the wrap slot |
| LiftingSteps.UnUpdateUpdate | 3/lib/lazy_wavelet.py:24-27 | the inverse update undoes the update |
| LiftingSteps.UpdateUnUpdate | 3/lib/lazy_wavelet.py:56-59 | the update undoes the inverse update |
| LiftingSteps.UnPredictPredict | 3/lib/lazy_wavelet.py:20-23 | the inverse predict undoes the predict |
| LiftingSteps.PredictUnPredict | 3/lib/lazy_wavelet.py:60-63 | the predict undoes the inverse predict |
| LiftingSteps.UnLevelLevel | 3/lib/lazy_wavelet.py:20-27 | one inverse level undoes one forward level on every sequence, for every even active length and wrap slot |
| LiftingSteps.LevelUnLevel | 3/lib/lazy_wavelet.py:55-63 | one forward level undoes one inverse level |
| LiftingSteps.DeinterleaveInPlace | 3/lib/lazy_wavelet.py:30 | the `np.concatenate` slice assignment leaves the evens of the active prefix, then its odds, and the rest unchanged |
| LiftingSteps.InterleaveInto | 3/lib/lazy_wavelet.py:52-54 | the two strided slice assignments put the first half of the prefix on the even slots and the second half on the odd slots |
| LiftingSteps.InterleaveDeinterleave | 3/lib/lazy_wavelet.py:30 | re-interleaving undoes the evens-then-odds reordering |
| LiftingSteps.DeinterleaveInterleave | 3/lib/lazy_wavelet.py:52-54 | the evens-then-odds reordering undoes the re-interleaving |
| LiftingPasses.StepStep | 3/lib/lazy/lifting.hpp:31-38 | one level followed by the opposite level is the identity, for both wrap-slot conventions |
| LiftingPasses.RowPassInverse | 3/lib/lazy_wavelet.py:80-81 | running the row pass forward and then backward over the same rows restores the matrix |
| LiftingPasses.ColPassInverse | 3/lib/lazy_wavelet.py:83-84 | running the column pass forward and then backward over the same columns restores the matrix |
| LiftingPasses.ColOfColPass | 3/lib/lazy_wavelet.py:84 | each processed column of the column pass is that column taken through one level |
| LiftingPasses.TransposedRowPass | 3/lib/lazy/lifting.hpp:100-108 | transposing, running the row pass and transposing back is the column pass on the untransposed image |
| Quadrants.QuadMoves | 3/lib/lazy/lifting.hpp:113-119 | each cell of the block lands in its parity band's quadrant at (i/2, j/2) shifted by half a side per odd index; the (even, even) cell is scaled by `__c` |
| Quadrants.ParityDst | 3/lib/lazy/lifting.hpp:115-118 | the destination of cell (i, j) is row i/2 or l1/2 + (i-1)/2 and column j/2 or l2/2 + (j-1)/2 by parity, as the four branches write |
| Quadrants.ParitySrc | 3/lib/lazy/lifting.hpp:148-151 | the inverse loop reads quadrant cell (i, j) back from row 2i or (i - l1/2)*2 + 1 and column 2j or (j - l2/2)*2 + 1 |
| Quadrants.SrcDst | 3/lib/lazy/lifting.hpp:113-119 | the destination map is a bijection of the block onto itself whose inverse is the source map, and only (even, even) cells reach the top-left quadrant |
| Quadrants.DstSrc | 3/lib/lazy/lifting.hpp:146-152 | the source map is the inverse of the destination map in the other direction |
| Quadrants.UnQuadQuad | 3/lib/lazy/lifting.hpp:110-152 | restoring the quadrants (dividing the top-left by `__c`) undoes the reorganisation for any nonzero scale |
| Quadrants.UnQuadQuadCell | 3/lib/lazy/lifting.hpp:110-152 | the same round trip, cell by cell |
| Quadrants.QuadUnQuad | 3/lib/lazy/lifting.hpp:110-152 | the reorganisation undoes the restoration |
| Quadrants.Reorganise | 3/lib/lazy/lifting.hpp:110-119 | the copy to `__temp` and the double loop leave `Quad` of the old image: the four parity bands in their quadrants, the top-left scaled, everything outside the block unchanged |
| Quadrants.Restore | 3/lib/lazy/lifting.hpp:143-152 | the copy and the inverse loop leave `UnQuad` of the old image |
| Quadrants.Quad | 3/lib/lazy/lifting.hpp:110-119 | the reorganisation keeps the matrix shape and every cell outside the leading `l1` × `l2` block |
| Quadrants.UnQuad | 3/lib/lazy/lifting.hpp:143-152 | the restoration keeps the matrix shape and every cell outside the leading block |
| Lifting2D.Unlift2DOfLift2D | 3/lib/lazy_wavelet.py:69-119 | the 2D inverse (inner levels first, then quadrants, columns, rows) undoes the 2D forward transform on every accepted shape, for either wrap convention, layout and nonzero scale |
| Lifting2D.Lift2DOfUnlift2D | 3/lib/lazy_wavelet.py:69-119 | the 2D forward transform undoes the 2D inverse |
| Lifting2D.Lift2D | 3/lib/lazy_wavelet.py:69-90 | the recursive 2D forward transform (rows, columns, quadrants, then the top-left quadrant) keeps the matrix shape |
| Lifting2D.Unlift2D | 3/lib/lazy_wavelet.py:92-119 | the recursive 2D inverse (inner levels, quadrants, columns, rows) keeps the matrix shape |
| LazyWaveletPy.ReduceSpec | 3/lib/lazy_wavelet.py:8-33 | `lazy_wavelet_reduce` succeeds exactly on the lengths it accepts (`_len` <= 2 given explicitly, or a power of two from 2 to the array's length); it fails with the assertion exactly when the length is not a power of two; on success the array keeps its length |
| LazyWaveletPy.InverseSpec | 3/lib/lazy_wavelet.py:37-65 | the same acceptance and error split for `lazy_wavelet_inverse`, with the length preserved |
| LazyWaveletPy.ReduceStep | 3/lib/lazy_wavelet.py:20-33 | a non-trivial call runs one level, then either returns it or reorders the prefix evens-then-odds and recurses on half the length |
| LazyWaveletPy.InverseStep | 3/lib/lazy_wavelet.py:46-65 | a non-trivial inverse call first inverts the coarser levels and re-interleaves (when recursing), then undoes one level |
| LazyWaveletPy.InverseOfReduce | 3/lib/lazy_wavelet.py:8-65 | `lazy_wavelet_inverse(lazy_wavelet_reduce(x, n, r), n, r) == x` for every accepted length and either `_recurse` |
| LazyWaveletPy.InverseOfReduceOnce | 3/lib/lazy_wavelet.py:20-27 | the single-level round trip (`_recurse` false) |
| LazyWaveletPy.InverseOfReduceRecursive | 3/lib/lazy_wavelet.py:28-32 | the recursive round trip, by induction on the halved length |
| LazyWaveletPy.ReduceOfInverse | 3/lib/lazy_wavelet.py:37-65 | `lazy_wavelet_reduce(lazy_wavelet_inverse(t, n, r), n, r) == t` |
| LazyWaveletPy.ReduceFrame | 3/lib/lazy_wavelet.py:21-30 | the forward transform leaves every entry from the active length up to (not including) the last slot unchanged |
| LazyWaveletPy.SingleLevel | 3/lib/lazy_wavelet.py:81 | a non-recursive call with an explicit length is one row step with the last slot as wrap slot, in both directions |
| LazyWaveletPy.CopyOf | 3/lib/lazy_wavelet.py:18-19 | `np.zeros` then `__temp[:] = _arr`: a fresh array holding the input |
| LazyWaveletPy.LevelCopy | 3/lib/lazy_wavelet.py:18-30 | the fresh buffer holds one forward level of the input, deinterleaved when recursing; the input array is left alone |
| LazyWaveletPy.UnLevelCopy | 3/lib/lazy_wavelet.py:49-63 | the fresh buffer holds one inverse level of the (re-interleaved when recursing) input |
| LazyWaveletPy.LazyWaveletReduce | 3/lib/lazy_wavelet.py:8-33 | the returned array (or error) is `ReduceSpec` of the input's contents |
| LazyWaveletPy.LazyWaveletInverse | 3/lib/lazy_wavelet.py:37-65 | the returned array (or error) is `InverseSpec` of the input's contents |
| LazyWaveletPy.RowLevel | 3/lib/lazy_wavelet.py:81 | `_img[_i] = lazy_wavelet_reduce(_img[_i], __l2, False)` (or the inverse): succeeds exactly when the row length accepts `len`, then replaces row i by its level and leaves the rest; on failure nothing changes |
| LazyWaveletPy.ColLevel | 3/lib/lazy_wavelet.py:84 | the same for column j |
| LazyWaveletPy.RowsLevel | 3/lib/lazy_wavelet.py:80-81 | the row loop succeeds exactly when all rows exist and the width accepts `len`, and then leaves the row pass of the old image |
| LazyWaveletPy.ColsLevel | 3/lib/lazy_wavelet.py:83-84 | the column loop succeeds exactly when the height accepts `len`, and then leaves the column pass |
| LazyWaveletPy.ReorganiseQuadrants | 3/lib/lazy_wavelet.py:86 | the `np.r_`/`np.c_` assignment leaves `Quad` with the crossed layout: evens of rows and columns top-left, odd rows/even columns top-right, even rows/odd columns bottom-left |
| LazyWaveletPy.QuadBlock | 3/lib/lazy_wavelet.py:86 | the right-hand side of the assignment: a new block whose entry (p, q) is read from the cell `Quad` moves there |
| LazyWaveletPy.Scatter | 3/lib/lazy_wavelet.py:86 | the slice assignment `_img[:__l1,:__l2] = ...` writes the block and nothing else |
| LazyWaveletPy.RestoreQuadrants | 3/lib/lazy_wavelet.py:103-110 | the copy to `__temp` and the four strided assignments leave `UnQuad` (crossed layout) of the old image |
| LazyWaveletPy.Gather | 3/lib/lazy_wavelet.py:107-110 | each cell of the block is read from its quadrant in `__temp`; cells outside the block are unchanged |
| LazyWaveletPy.LazyTransform | 3/lib/lazy_wavelet.py:69-88 | `lazy_transform` runs to the end exactly on the shapes it accepts (a side at most 2, or powers of two inside the image), and then leaves `Lift2D` of the old image |
| LazyWaveletPy.LazyInverse | 3/lib/lazy_wavelet.py:92-119 | `lazy_inverse` on an accepted shape leaves `Unlift2D` of the old image, the inverse of `Lift2D` |
| LiftingCpp.ShortLevel | 3/lib/lazy/lifting.hpp:23-24 | a length of at most 2 returns the row untouched, in both directions |
| LiftingCpp.CLevelPrefix | 3/lib/lazy/lifting.hpp:28-41 | a level reads and writes only the first `_len` entries of the row; later entries are unchanged |
| LiftingCpp.CUnLevelOfCLevel | 3/lib/lazy/lifting.hpp:18-79 | `lazy_wavelet_inverse(lazy_wavelet_reduce(r, n), n)` restores r for every length the assertion accepts |
| LiftingCpp.CLevelOfCUnLevel | 3/lib/lazy/lifting.hpp:18-79 | the forward level undoes the inverse level |
| LiftingCpp.Head | 3/lib/lazy/lifting.hpp:27-28 | `new float[_len]` filled from the row: a fresh buffer holding the first `_len` entries |
| LiftingCpp.PutHead | 3/lib/lazy/lifting.hpp:41 | the buffer written back over the head of the row, the tail unchanged |
| LiftingCpp.LazyWaveletReduce | 3/lib/lazy/lifting.hpp:18-45 | the row becomes `CLevel` of its old contents: predict with wrap at `_len-1`, update with wrap at 0, on the head only |
| LiftingCpp.LazyWaveletInverse | 3/lib/lazy/lifting.hpp:52-79 | the row becomes `CUnLevel` of its old contents: the update, then the predict, undone |
| LiftingCpp.BandScale | 3/lib/lazy/lifting.hpp:87-88 | `__c` is positive (1.4 with `_scl`, 1 otherwise), so the inverse's division is defined |
| LiftingCpp.CBase | 3/lib/lazy/lifting.hpp:94 | either side at most 2 leaves the image unchanged, in both directions |
| LiftingCpp.SquareTransform | 3/lib/lazy/lifting.hpp:86-123 | on a square block the C++ forward transform is the shared 2D transform with wrap slot `_len-1`, parity bands and scale `__c` |
| LiftingCpp.SquareInverse | 3/lib/lazy/lifting.hpp:130-168 | on a square block the C++ inverse is the shared 2D inverse |
| LiftingCpp.CInverseOfCTransform | 3/lib/lazy/lifting.hpp:86-168 | `lazy_inverse(lazy_transform(img, s, f), s, f) == img` for square power-of-two blocks and either `_scl` |
| LiftingCpp.CTransformOfCInverse | 3/lib/lazy/lifting.hpp:86-168 | `lazy_transform(lazy_inverse(img, s, f), s, f) == img` for the same shapes |
| LiftingCpp.NonSquareRejected | 3/lib/lazy/lifting.hpp:97-105 | on a non-square image with power-of-two sides above 2, the whole-image call runs a level longer than a row or a column |
| LiftingCpp.FixedAgreesOnSquares | 3/lib/lazy/lifting.hpp:86-168 | the corrected transform and inverse agree with the code as written wherever the latter works on a square block |
| LiftingCpp.FixedRoundTrip | 3/lib/lazy/lifting.hpp:86-168 | the corrected transform round-trips in both directions on every block of powers of two that fits, square or not |
| LiftingCpp.RowLevel | 3/lib/lazy/lifting.hpp:98 | row i through one level of the given length, every other row unchanged |
| LiftingCpp.ColLevel | 3/lib/lazy/lifting.hpp:104-105 | column j (row j of the transposed image) through one level, every other column unchanged |
| LiftingCpp.RowsLevel | 3/lib/lazy/lifting.hpp:97-98 | the row loop leaves the row pass of the old image |
| LiftingCpp.ColsLevel | 3/lib/lazy/lifting.hpp:100-108 | transpose, row loop, transpose back: the column pass of the old image |
| LiftingCpp.LazyTransform | 3/lib/lazy/lifting.hpp:86-123 | the image becomes `CTransform` of the old one: rows with length `__l1`, columns with `__l2`, parity quadrants scaled by `__c`, recursion on `Size(__l1/2, __l2/2)` |
| LiftingCpp.LazyInverse | 3/lib/lazy/lifting.hpp:130-168 | the image becomes `CInverse` of the old one: inner levels, inverse quadrant loop, columns, rows |
| LiftingCpp.CTransform | 3/lib/lazy/lifting.hpp:86-123 | the C++ forward transform, rows with `__l1`, columns with `__l2`, keeps the matrix shape |
| LiftingCpp.CInverse | 3/lib/lazy/lifting.hpp:130-168 | the C++ inverse transform keeps the matrix shape |
| Haar.AverageIsHalfSumAndDifference | 3/lib/haar.hpp:39-41 | the forward pair step turns (a, b) into (c·(a+b)/2, c·(a−b)/2) |
| Haar.PairUndo | 3/lib/haar.hpp:39-41 | with the factor chosen by `normalised` (√2 or 1), the inverse pair step of lines 98-105 undoes the forward pair step, and the forward step undoes the inverse one |
| Haar.StepsUndo | 3/lib/haar.hpp:98-118 | the same two undo facts as properties of the pair steps taken as functions, for both flavours of `normalised` |
| Haar.ZeroRowLoop | 3/lib/haar.hpp:33-35 | the loop that clears an odd last row leaves the array equal to `ZeroRow` of its old contents: that row is 0 in its first `cols` entries, all else unchanged (`ZeroRowAt`) |
| Haar.ZeroColLoop | 3/lib/haar.hpp:44-46 | the loop that clears an odd last column leaves the array equal to `ZeroCol` of its old contents (`ZeroColAt`) |
| Haar.ZeroRowAt | 3/lib/haar.hpp:33-35 | cell (p, q) of `ZeroRow` is 0 exactly on row r below column `cols` and the old value elsewhere |
| Haar.ZeroColAt | 3/lib/haar.hpp:44-46 | cell (p, q) of `ZeroCol` is 0 exactly on column c above row `rows` and the old value elsewhere |
| Haar.ZeroRowTwice | 3/lib/haar.hpp:33-35 | clearing the same row twice is the same as clearing it once |
| Haar.PairCells | 3/lib/haar.hpp:39-41 | rewriting two distinct cells with a pair step stores the step's two results there and changes nothing else |
| Haar.AverageCells | 3/lib/haar.hpp:39-41 | the forward step on two distinct cells: the first gets c·avg, the second c·(a−avg), nothing else changes |
| Haar.RecoverCells | 3/lib/haar.hpp:98-105 | the inverse step on two distinct cells, in the source's order (first cell overwritten, then read back for the second), nothing else changes |
| Haar.PairTwoRowsLoop | 3/lib/haar.hpp:38-42 | the inner loop over one pair of rows leaves the array equal to `PairTwoRows` of its old contents |
| Haar.PairRowsLoop | 3/lib/haar.hpp:37-42 | the loop over the row pairs leaves the array equal to `PairRows` of its old contents |
| Haar.PairRows | 3/lib/haar.hpp:37-42 | pairing the first `rows` rows with a step keeps the matrix shape and leaves the rows from `rows` on unchanged |
| Haar.NextRowPair | 3/lib/haar.hpp:37-42 | one more row pair extends `PairRows` from the first i rows to the first i+2 |
| Haar.PairTwoColsLoop | 3/lib/haar.hpp:49-53 | the inner loop over one pair of columns leaves the array equal to `PairTwoCols` of its old contents |
| Haar.PairColsLoop | 3/lib/haar.hpp:48-53 | the loop over the column pairs leaves the array equal to `PairCols` of its old contents |
| Haar.PairCols | 3/lib/haar.hpp:48-53 | pairing the first `cols` columns with a step keeps the matrix shape |
| Haar.NextColPair | 3/lib/haar.hpp:48-53 | one more column pair extends `PairCols` from the first j columns to the first j+2 |
| Haar.PairRowsAt | 3/lib/haar.hpp:37-42 | inside the block, an even row of `PairRows` holds the first result of the step on it and the row below, an odd row the second; outside the block nothing changes |
| Haar.PairRowsPair | 3/lib/haar.hpp:39-41 | rows u and u+1 of a pair in the block hold the two results of the step on their entries |
| Haar.PairColsPair | 3/lib/haar.hpp:50-52 | columns v and v+1 of a pair in the block hold the two results of the step on their entries |
| Haar.PairsInRowPair | 3/lib/haar.hpp:50-52 | within one row, the column pair (v, v+1) holds the two results of the step |
| Haar.PairRowsOutside | 3/lib/haar.hpp:37-42 | the row pairing does not touch cells outside the block |
| Haar.PairColsOutside | 3/lib/haar.hpp:48-53 | the column pairing does not touch cells outside the block |
| Haar.PairRowsUndo | 3/lib/haar.hpp:108-119 | pairing the rows with a step and then with a step that undoes it gives the matrix back |
| Haar.PairColsUndo | 3/lib/haar.hpp:95-106 | pairing the columns with a step and then with a step that undoes it gives the matrix back |
| Haar.PairsInRowUndo | 3/lib/haar.hpp:95-106 | the same undo fact for the column pairs of a single row |
| Haar.UpperLowerUndo | 3/lib/haar.hpp:108-119 | the undo fact for one pair of rows, row by row |
| Haar.Even | 3/lib/haar.hpp:36 | `_row - _row % 2` is even, at most the side and at least the side minus 1, and equal to it when the side is even |
| Haar.RowsStep | 3/lib/haar.hpp:33-42 | the row half of a level (odd last row cleared, then the row pairs) leaves the array equal to `RowsPaired` of its old contents |
| Haar.ColsStep | 3/lib/haar.hpp:44-53 | the column half of a level leaves the array equal to `ColsPaired` of its old contents |
| Haar.RowsPairedMean | 3/lib/haar.hpp:39-41 | unnormalised, the even row of a row pair holds the mean of the two rows |
| Haar.ColsPairedMean | 3/lib/haar.hpp:50-52 | unnormalised, the even column of a column pair holds the mean of the two columns |
| Haar.MeanOfMeans | 3/lib/haar.hpp:39-52 | the mean of two pair means is the mean of the four entries |
| Haar.MeanOfPairedBlock | 3/lib/haar.hpp:37-53 | unnormalised, after the rows and the columns are paired the top-left cell of every 2×2 block holds the mean of the block |
| Haar.MeanOfTopLeftBlock | 3/lib/haar.hpp:37-53 | the same for the 2×2 block at (2i, 2j) |
| Haar.LevelTopLeft | 3/lib/haar.hpp:59-65 | the reorganisation moves the cell (2i, 2j) of the paired block to (i, j) |
| Haar.QuadTopLeft | 3/lib/haar.hpp:61 | the even-even parity band lands in the top-left quadrant: cell (i, j) of it is cell (2i, 2j) before |
| Haar.MeanAfterOneLevel | 3/lib/haar.hpp:24-65 | unnormalised, after one level the top-left quadrant is the 2×2 block means of the leading block: the half-size average image |
| Haar.LevelFrame | 3/lib/haar.hpp:29-65 | a level changes nothing outside the leading `rows` × `cols` block |
| Haar.RowsPairedOutside | 3/lib/haar.hpp:33-42 | the row half of a level changes nothing outside the block |
| Haar.ColsPairedOutside | 3/lib/haar.hpp:44-53 | the column half of a level changes nothing outside the block |
| Haar.LevelZeroRow | 3/lib/haar.hpp:33-36 | with an odd number of rows, the last row of the block is 0 after a level |
| Haar.LevelZeroCol | 3/lib/haar.hpp:44-47 | with an odd number of columns, the last column of the block is 0 after a level |
| Haar.OddRowZeroed | 3/lib/haar.hpp:33-36 | with an odd number of rows, the last row of the block is 0 in the transform: its data is lost |
| Haar.OddColZeroed | 3/lib/haar.hpp:44-47 | with an odd number of columns, the last column of the block is 0 in the transform |
| Haar.DiscardsOddRow | 3/lib/haar.hpp:33-36 | the transform of an odd-height block does not depend on its last row, so no inverse can recover that row |
| Haar.Transform | 3/lib/haar.hpp:24-68 | the transform changes nothing outside the leading block |
| Haar.HaarTransform | 3/lib/haar.hpp:24-68 | `haar_transform` leaves the array equal to `Transform` of its old contents: levels until a side is at most 1, each recursing on the top-left quadrant of half the even sides |
| Haar.InverseHaarTransform | 3/lib/haar.hpp:76-120 | `inverse_haar_transform` leaves the array equal to `Inverse` of its old contents: coarser levels first, then the quadrants back on their parity bands and the column and row pairs undone |
| Haar.Inverse | 3/lib/haar.hpp:76-120 | the inverse transform, coarser levels first, keeps the matrix shape |
| Haar.HaarTransformCpp | 3/lib/haar.cpp:76-117 | the unnormalised copy in haar.cpp computes `Transform` with `normalised` false |
| Haar.InverseHaarTransformCpp | 3/lib/haar.cpp:125-157 | the unnormalised copy in haar.cpp computes `Inverse` with `normalised` false |
| Haar.InverseLevelUnfold | 3/lib/haar.hpp:87-119 | on even sides, an inverse level is the quadrants undone, then the column pairs undone, then the row pairs undone |
| Haar.TransformUnfold | 3/lib/haar.hpp:24-67 | on even sides, the transform is one level followed by the transform of the half-size top-left block |
| Haar.InverseLevelOfLevel | 3/lib/haar.hpp:76-120 | on even sides with s² = 2 (or unnormalised), the inverse level undoes the forward level |
| Haar.LevelOfInverseLevel | 3/lib/haar.hpp:24-68 | on even sides, the forward level undoes the inverse level |
| Haar.RowsOfInverseLevel | 3/lib/haar.hpp:95-119 | pairing the rows forward after an inverse level leaves only the column pairs undone |
| Haar.Pow2EvenAllTheWay | 3/lib/haar.hpp:29-67 | when both sides are powers of two, every level of the recursion has even sides |
| Haar.InverseOfTransform | 3/lib/haar.hpp:24-120 | when every level has even sides (powers of two, say), `inverse_haar_transform` after `haar_transform` gives the matrix back, normalised with s² = 2 or not |
| Haar.TransformOfInverse | 3/lib/haar.hpp:24-120 | under the same condition, `haar_transform` after `inverse_haar_transform` gives the matrix back |
| Thresholding.Soft | 3/lib/haar.cpp:174-175 | for k ≥ 0, an entry above k loses k, one below −k gains k, one in [−k, k] is kept; the two tests run one after the other, so for any k an entry above k ends at x − k unless that falls below −k |
| Thresholding.Hard | 3/lib/haar.cpp:178-179 | hard removal yields 0 or the entry itself, and keeps the entry exactly when its magnitude is at least k (or it is already 0) |
| Thresholding.DenoiseAll | 3/lib/haar.cpp:165-181 | the denoised matrix has the same shape and each cell is the soft or hard threshold of the same cell before |
| Thresholding.Denoise | 3/lib/haar.cpp:165-181 | `denoise` leaves the array equal to `DenoiseAll` of its old contents; the same loop is at 3/lib/haar_denoising.cpp:24-40 and 3/lib/lazy/lazy_denoising.cpp:24-40 |
| Thresholding.CutoffReduce | 3/lib/lazy/lazy_compression.cpp:19-27 | `cutoff_reduce` zeroes exactly the cells of magnitude below ct/100: the hard threshold at `Cut(ct)`; the same loop is at 3/lib/haar/haar_compression.cpp:54-64 and 3/lib/haar_compression.cpp:25-34 |
| Thresholding.TruncateToInt | 3/lib/lazy/lazy_compression.cpp:75 | the conversion of a float to the `int` parameter truncates toward zero: the magnitude drops by less than 1, the sign is kept, and whole numbers are unchanged |
| Thresholding.SoftKeepsSmall | 3/lib/haar.cpp:173-176 | soft thresholding leaves entries in [−k, k] alone |
| Thresholding.SoftShrinks | 3/lib/haar.cpp:173-176 | for k ≥ 0 soft thresholding keeps the sign, never increases the magnitude and moves an entry by at most k |
| Thresholding.SoftMagnitude | 3/lib/haar.cpp:173-176 | an entry of magnitude above k ≥ 0 ends with magnitude exactly |x| − k |
| Thresholding.SoftNegativeK | 3/lib/haar.cpp:173-176 | with a negative threshold, a negative entry above k is left unchanged (the first test subtracts k, the second adds it back) |
| Thresholding.HardZeroesExactlySmall | 3/lib/haar.cpp:178-179 | hard removal zeroes entries of magnitude below k and keeps the others |
| Thresholding.HardIdempotent | 3/lib/haar.cpp:178-179 | hard removal applied twice is the same as once |
| Thresholding.DenoiseHardIdempotent | 3/lib/haar.cpp:165-181 | hard denoising a whole matrix twice is the same as once; so is `cutoff_reduce` |
| Thresholding.DenoiseSoftShrinks | 3/lib/haar.cpp:165-181 | soft denoising never increases the magnitude of a cell and keeps cells within [−k, k] |
| Thresholding.LazyEncodeCutBelow | 3/lib/lazy/lazy_compression.cpp:75-83 | for a cutoff ct ≥ 0 read as a float, the threshold `encode` passes on is at most ct/100 and within 0.01 below it |
| Thresholding.LazyEncodeKeepsMore | 3/lib/lazy/lazy_compression.cpp:75-83 | a cutoff of 2.5 becomes the threshold 0.02, not 0.025, so an entry of 0.021 survives `encode` although `cutoff_reduce(img, 2.5)` would clear it |
| RunLength.RoundHalfEven | 3/lib/haar/haar_compression.cpp:73 | the conversion to bytes rounds to a nearest integer, ties to the even one |
| RunLength.SaturateByte | 3/lib/haar/haar_compression.cpp:73 | a value within [−0.5, 255.5] becomes a byte within 0.5 of it; below that range it becomes 0, above it 255 |
| RunLength.ScaleAll | 3/lib/haar/haar_compression.cpp:70-72 | every entry becomes entry·a + b, shape unchanged |
| RunLength.ToBytes | 3/lib/haar/haar_compression.cpp:73 | every entry becomes its saturated byte, shape unchanged |
| RunLength.DequantiseAll | 3/lib/haar/haar_compression.cpp:168 | every byte v becomes (v − offset)/128, shape unchanged |
| RunLength.QuantiseError | 3/lib/haar/haar_compression.cpp:70-73 | for an entry whose scaled value is in the byte range, encoding to a byte and decoding back moves it by at most 1/256 |
| RunLength.FlattenLength | 3/lib/haar/haar_compression.cpp:75-76 | the row-major visit of an h × w matrix has h·w entries |
| RunLength.FlattenInjective | 3/lib/haar/haar_compression.cpp:75-76 | two h × w byte matrices with the same row-major visit are equal |
| RunLength.Repeat | 3/lib/haar/haar_compression.cpp:161-169 | `n` copies of a byte (none for negative `n`) |
| RunLength.ExpandSnoc | 3/lib/haar/haar_compression.cpp:88 | appending a run appends its copies to the expansion and its count to the total |
| RunLength.SumOfPositive | 3/lib/haar/haar_compression.cpp:75-88 | when every count is positive, the total of the counts is the length of the expansion and at least the number of runs |
| RunLength.ScanSnoc | 3/lib/haar/haar_compression.cpp:75-87 | scanning one more byte is one more step of the loop body |
| RunLength.PrefixStep | 3/lib/haar/haar_compression.cpp:75-87 | visiting cell (i, j) extends the scanned prefix by that cell |
| RunLength.PrefixRows | 3/lib/haar/haar_compression.cpp:75-76 | the prefix before row i is the flattening of the rows above it, and after it the rows up to it |
| RunLength.AlternatingSnoc | 3/lib/haar/haar_compression.cpp:84 | a run pushed with a value different from the last run keeps neighbouring runs different |
| RunLength.NextKeeps | 3/lib/haar/haar_compression.cpp:78-86 | one loop step keeps the coder invariant: finished runs positive and alternating, the open run's value different from the last finished one, and finished runs plus the open run spelling out what was scanned |
| RunLength.ScanFacts | 3/lib/haar/haar_compression.cpp:75-87 | the whole scan keeps that invariant, from an initial open run of `r0` copies |
| RunLength.EncodeIsRunLength | 3/lib/haar/haar_compression.cpp:67-89 | the code of a non-empty byte sequence has positive counts, neighbouring runs with different values, expands back to the sequence, and its counts add up to its length |
| RunLength.EncodeRuns | 3/lib/haar/haar_compression.cpp:74-88 | the scanning loop returns `Encode` of the row-major bytes, which is a run-length code of them whose counts add up to height·width |
| RunLength.FlattenHead | 3/lib/haar/haar_compression.cpp:74 | the first byte visited is cell (0, 0), whose value seeds the open run |
| RunLength.ScaleShift | 3/lib/haar/haar_compression.cpp:70-72 | the in-place `img *= 128; img += offset` leaves the array equal to `ScaleAll` of its old contents |
| RunLength.ConvertToBytes | 3/lib/haar/haar_compression.cpp:73 | a fresh byte matrix of the same shape holding `ToBytes` of the entries |
| RunLength.RunLengthEncode | 3/lib/haar/haar_compression.cpp:67-89 | `runlength_encode` (offset 128 here, 127 in 3/lib/lazy/lazy_compression.cpp:30-52) scales the matrix in place, converts it to bytes and returns a run-length code of the row-major bytes whose counts add up to the number of cells |
| RunLength.Step | 3/lib/haar/haar_compression.cpp:161-169 | one decoder step fails exactly when the open count is 0 and no run is left to pop |
| RunLength.Fill | 3/lib/haar/haar_compression.cpp:160-170 | filling k cells, when it does not run out, yields exactly k bytes |
| RunLength.FillRows | 3/lib/haar/haar_compression.cpp:160-170 | filling h rows of w cells, when it does not run out, yields an h × w byte matrix |
| RunLength.DecodeRow | 3/lib/haar/haar_compression.cpp:161-170 | the inner loop over one row (right to left) succeeds exactly when `Fill` does, leaves the decoder where `Fill` does, writes the dequantised bytes into that row and no other |
| RunLength.RecreateImage | 3/lib/haar/haar_compression.cpp:157-173 | `recreate_image` (offset 128 here, 127 in 3/lib/lazy/lazy_compression.cpp:122-138) reports running out when the code is too short, and otherwise fills the matrix with the dequantised bytes of `FillRows` and reports whether the final check finds the code used up |
| RunLength.GlueTwice | 3/lib/haar/haar_compression.cpp:160-170 | cells filled in two batches are the same as in one |
| RunLength.GlueRowsTwice | 3/lib/haar/haar_compression.cpp:160-170 | rows filled in two batches are the same as in one |
| RunLength.FillNegative | 3/lib/haar/haar_compression.cpp:162-169 | a decoder whose open count is negative never pops again: it repeats its value and counts further down |
| RunLength.FillFacts | 3/lib/haar/haar_compression.cpp:157-173 | from a non-negative open count, filling k cells ends with the code used up exactly when all counts are positive and the open count plus the counts add up to k; then the cells are the expansion of the runs followed by the open run |
| RunLength.FillFactsPop | 3/lib/haar/haar_compression.cpp:162-166 | the same when the open count is 0 and a run must be popped first |
| RunLength.FillAdd | 3/lib/haar/haar_compression.cpp:160-170 | filling a + b cells is filling b cells, then a more from where it stopped |
| RunLength.FillRowsIsFill | 3/lib/haar/haar_compression.cpp:160-170 | filling h rows of w cells agrees with filling h·w cells: same decoder, same bytes row by row |
| RunLength.DecodeCompleteIff | 3/lib/haar/haar_compression.cpp:157-173 | the decoder fills an h × w matrix and passes its final check if and only if every count is positive and the counts add up to h·w; then the matrix is the code's expansion |
| RunLength.DecodeEncoded | 3/lib/haar/haar_compression.cpp:67-173 | decoding the code of a non-empty h × w byte matrix fills it back exactly and passes the final check |
| RunLength.CodecRoundTrip | 3/lib/haar/haar_compression.cpp:67-173 | encode then decode passes the final check and gives every entry back as its quantised-then-dequantised value, so within 1/256 of it whenever it lies in the byte range (`QuantiseError`) |
| RunLength.DraftExpands | 3/lib/haar_compression.cpp:44-59 | its scan keeps the coder invariant from an open run of one extra copy of cell (0, 0), and the pushed runs are positive and alternating |
| RunLength.DraftIsShort | 3/lib/haar_compression.cpp:37-60 | the earlier encoder's code never expands back to the bytes and is never longer than them |
| RunLength.ExpandLast | 3/lib/haar_compression.cpp:37-60 | the last byte of a positive code's expansion is the last run's value |
| RunLength.DraftCounterexamples | 3/lib/haar_compression.cpp:37-60 | four equal bytes encode to no run at all; [1, 1, 2] encodes to (1, 3) where the other encoders give (1, 2), (2, 1) |
| RunLength.DraftEncodeRuns | 3/lib/haar_compression.cpp:44-59 | the earlier scanning loop returns `DraftRuns` of the row-major bytes: positive, alternating runs covering at most height·width bytes |
| RunLength.DraftRunLengthEncode | 3/lib/haar_compression.cpp:37-60 | the earlier `runlength_encode` divides by the first entry plus 1, scales by 128, adds 128, converts to bytes and returns `DraftRuns` of them |
| Gaussian.StepsCases | 5/lib/gaussian.py:20 | the four strided slices of an axis of length n broadcast exactly when n is even, 1 or 3; the sum then has n/2 entries for even n, none for 1 and 2 for 3 |
| Gaussian.Half | 5/lib/gaussian.py:20 | one reduction is a matrix with the broadcast shape of the four slices on both axes |
| Gaussian.HalfShape | 5/lib/gaussian.py:20 | one reduction takes an h × w matrix to `Step(h)` × `Step(w)` |
| Gaussian.HalfEntry | 5/lib/gaussian.py:20 | where the slices broadcast, entry (i, j) with 2i + 1 and 2j + 1 inside the matrix is the mean of the 2 × 2 block at (2i, 2j) |
| Gaussian.HalfThree | 5/lib/gaussian.py:20 | on three rows the single odd row is broadcast: output row 0 averages rows 0 and 1, output row 1 averages rows 2 and 1 |
| Gaussian.BlockMean | 5/lib/gaussian.py:20 | on even sides every entry of a reduction is the mean of its 2 × 2 block |
| Gaussian.Level | 5/lib/gaussian.py:16-20 | level k > 0 of the pyramid is a rectangular matrix |
| Gaussian.SideStep | 5/lib/gaussian.py:16-20 | the side of level k + 1 is one step of the side of level k |
| Gaussian.ChainsStep | 5/lib/gaussian.py:16-20 | k + 1 reductions broadcast exactly when the first k do and the reduction of level k does |
| Gaussian.ChainsLower | 5/lib/gaussian.py:16-20 | when all `lvl` reductions broadcast, so do the first k |
| Gaussian.SideBound | 5/lib/gaussian.py:12-20 | when 2^lvl is at most the side and the first k reductions broadcast, the side of level k is at least 2^(lvl − k) |
| Gaussian.SideDivides | 5/lib/gaussian.py:16-20 | a side divisible by 2^k is n / 2^k at level k |
| Gaussian.LevelShape | 5/lib/gaussian.py:16-20 | level k of an h × w image is `Side(h, k)` × `Side(w, k)` |
| Gaussian.ViableIff | 5/lib/gaussian.py:12-20 | the assertion holds and all `lvl` reductions of a side broadcast exactly when the side is a positive multiple of 2^lvl or is 3 · 2^(lvl − 1) |
| Gaussian.GaussianSpecial | 5/lib/gaussian.py:10-24 | `gaussian_special` fails (the assertion, or numpy's `ValueError` in a reduction) exactly when a side is not `Viable`; otherwise it returns `lvl + 1` levels, level k being k reductions of the image |
| Gaussian.Pyramid | 5/lib/gaussian.py:14-22 | the list of the first n levels has n entries |
| Gaussian.PyramidLevels | 5/lib/gaussian.py:14-22 | entry k of that list is level k |
| Gaussian.Detail | 5/lib/gaussian.py:35-40 | a Laplacian level has the shape of the finer level; each entry is the finer entry minus the coarse entry of its 2 × 2 block, a single coarse row or column being broadcast |
| Gaussian.Restore | 5/lib/gaussian.py:55-60 | a rebuilt level has the shape of the detail level; each entry is the detail entry plus the coarse entry of its 2 × 2 block, a single coarse row or column being broadcast |
| Gaussian.RestoreDetail | 5/lib/gaussian.py:35-60 | restoring a detail level against the same coarse level gives the finer level back |
| Gaussian.DetailOfHalf | 5/lib/gaussian.py:20-40 | on even sides, detail entry (r, s) is the fine entry minus the block mean at (r / 2, s / 2) |
| Gaussian.DetailBlock | 5/lib/gaussian.py:20-40 | each of the four entries of block (i, j) of the detail is the fine entry minus that block's mean |
| Gaussian.DetailBlockZero | 5/lib/gaussian.py:20-40 | the four detail entries of every 2 × 2 block add up to 0: the detail holds no block mean |
| Gaussian.SideHalves | 5/lib/gaussian.py:16-20 | below level `lvl`, a side divisible by 2^lvl is twice the side of the next level, which is positive |
| Gaussian.DividesFits | 5/lib/gaussian.py:33-40 | on sides divisible by 2^lvl the four `-=` of every level below `lvl` broadcast |
| Gaussian.LastMisfits | 5/lib/gaussian.py:20-40 | on `Viable` sides not both divisible by 2^lvl, the `-=` of the last level (a side of 3 against a side of 2) does not broadcast |
| Gaussian.FitsDivide | 5/lib/gaussian.py:33-40 | when every `-=` along the levels broadcasts, both sides are divisible by 2^lvl |
| Gaussian.LaplacianSpecial | 5/lib/gaussian.py:27-46 | `laplacian_special` fails exactly when a side is not divisible by 2^lvl (the failures of `gaussian_special`, and the `ValueError` of a level of side 3 against one of side 2); otherwise it returns `lvl` detail levels, each a Gaussian level minus the next one replicated, followed by the last Gaussian level |
| Gaussian.DetailLevels | 5/lib/gaussian.py:31-46 | the loop fails exactly when some level's `-=` does not broadcast; otherwise it returns the detail levels followed by the last level |
| Gaussian.AlongTail | 5/lib/gaussian.py:33-40 | when the updates of the levels up to m broadcast, so do those up to any n ≤ m |
| Gaussian.DividesAlong | 5/lib/gaussian.py:33-40 | on sides divisible by 2^lvl the updates of the levels up to n broadcast |
| Gaussian.Details | 5/lib/gaussian.py:33-42 | the first n detail levels form a list of n entries |
| Gaussian.DetailsAt | 5/lib/gaussian.py:33-42 | entry k of the detail levels is level k minus level k + 1 replicated |
| Gaussian.DetailsLaplacian | 5/lib/gaussian.py:33-46 | the detail levels followed by the last Gaussian level are the Laplacian pyramid of the image |
| Gaussian.Rebuild | 5/lib/gaussian.py:49-64 | the image rebuilt from level j has the shape of level j |
| Gaussian.StacksTail | 5/lib/gaussian.py:53-60 | when every `+=` from level j on broadcasts, so does every `+=` from any later level |
| Gaussian.LaplacianCreate | 5/lib/gaussian.py:49-64 | `laplacian_create` fails on an empty list (the `IndexError` of `_l[-1]`) and on a level the coarser image does not broadcast onto (numpy's `ValueError`); otherwise it returns the levels restored from the coarsest one down (`Rebuild`) |
| Gaussian.RebuildLevel | 5/lib/gaussian.py:49-64 | rebuilding a Laplacian pyramid of an image from level j gives Gaussian level j |
| Gaussian.SpecialStacks | 5/lib/gaussian.py:27-64 | on the Laplacian pyramid of sides divisible by 2^lvl every `+=` of the reconstruction broadcasts |
| Gaussian.CreateInvertsSpecial | 5/lib/gaussian.py:27-64 | `laplacian_create` of the `laplacian_special` pyramid of an image broadcasts at every level and gives the image back exactly |
| PyramidReduce.C | 3/lib/pyramids.py:20-21 | the weights satisfy a + 2b + 2c = 1 with b = 1/4 |
| PyramidReduce.Constant | 3/lib/pyramids.py:24 | an n × w matrix with every entry v |
| PyramidReduce.Start | 3/lib/pyramids.py:26 | the first output row, a·x0 + 2b·x1 + 2c·x2, has w entries |
| PyramidReduce.Mid | 3/lib/pyramids.py:29 | the output row centred on input row i, c·x(i+2) + b·x(i+1) + a·x(i) + b·x(i−1) + c·x(i−2), has w entries |
| PyramidReduce.OddEnd | 3/lib/pyramids.py:31 | the ending for odd `_len`, a·x(−1) + 2b·x(−2) + 2c·x(−3), has w entries |
| PyramidReduce.EvenEnd | 3/lib/pyramids.py:32 | the ending for even `_len`, a·x(−2) + b·x(−3) + b·x(−1) + 2c·x(−4), has w entries |
| PyramidReduce.Row | 3/lib/pyramids.py:26-32 | output row k is the start row, the chosen ending for the last row, and the row centred on input row 2k otherwise; it has w entries |
| PyramidReduce.Reduced | 3/lib/pyramids.py:23-32 | the corrected first-axis reduction (ending chosen by the parity of the input length) has (n+1)/2 rows of the same width |
| PyramidReduce.ReducedAsWritten | 3/lib/pyramids.py:23-32 | the first-axis reduction as written (ending chosen by the parity of `_len`), defined from four rows on, has (n+1)/2 rows of the same width |
| PyramidReduce.ReduceAxis | 3/lib/pyramids.py:23-32 | on at least four rows, the start row, the loop over the even rows and the end row compute `ReducedAsWritten` |
| PyramidReduce.StartRow | 3/lib/pyramids.py:26 | the first row of the first pass is the start row |
| PyramidReduce.MidRow | 3/lib/pyramids.py:28-29 | an interior output row i/2 is the 5-tap mix centred on input row i |
| PyramidReduce.EndRow | 3/lib/pyramids.py:31-32 | the last output row is the odd ending when `_len` is odd and the even ending otherwise |
| PyramidReduce.Passes | 3/lib/pyramids.py:23-43 | the two as-written passes give a ((w+1)/2) × ((h+1)/2) matrix, the second pass working on the transpose |
| PyramidReduce.Reduced2 | 3/lib/pyramids.py:13-45 | the whole reduction of a matrix of at least 4 × 4 is ((h+1)/2) × ((w+1)/2) |
| PyramidReduce.PassesReduced2 | 3/lib/pyramids.py:33-45 | transposing the second pass gives the whole reduction |
| PyramidReduce.Reduce | 3/lib/pyramids.py:13-45 | `reduce_` fails with `IndexError` exactly when a side is below 4 (`_arr[2]` below 3; `_arr[-4]` of the even ending at 3, where `_len` is 2), and otherwise returns the matrix halved each way, rounding up |
| PyramidReduce.RowConstant | 3/lib/pyramids.py:26-32 | on a constant matrix every output row of the first pass is that constant, whichever ending is used, because the weights add up to 1 |
| PyramidReduce.StartConstant | 3/lib/pyramids.py:26 | on a constant matrix of at least three rows the start row is that constant |
| PyramidReduce.MidConstant | 3/lib/pyramids.py:29 | on a constant matrix every interior row is that constant |
| PyramidReduce.OddEndConstant | 3/lib/pyramids.py:31 | on a constant matrix of at least three rows the odd ending is that constant |
| PyramidReduce.EvenEndConstant | 3/lib/pyramids.py:32 | on a constant matrix of at least four rows the even ending is that constant |
| PyramidReduce.ReducedConstant | 3/lib/pyramids.py:23-32 | the first pass as written keeps a constant matrix constant |
| PyramidReduce.TransposeConstant | 3/lib/pyramids.py:33-43 | the transpose of a constant matrix is constant |
| PyramidReduce.Reduced2Constant | 3/lib/pyramids.py:13-45 | `reduce_` of a constant image is the constant image of half the size |
| PyramidReduce.Impulse | 3/lib/pyramids.py:13-45 | a column with a single 1 at row p |
| PyramidReduce.ReducedCentred | 3/lib/pyramids.py:23-32 | every output row k, the last one included, gives weight a to input row 2k: it is centred on it |
| PyramidReduce.AsWrittenOffCentre | 3/lib/pyramids.py:31 | with six rows, the last output row as written gives input row 4 the weight 2b instead of a: it is centred on row 5 |
| PyramidExpand.Zeros | 3/lib/pyramids.py:84 | a row of zeros |
| PyramidExpand.AddScaled | 3/lib/pyramids.py:86-100 | `u += c·v` entry by entry |
| PyramidExpand.Scaled | 3/lib/pyramids.py:97 | `c·v` entry by entry |
| PyramidExpand.Deposit | 3/lib/pyramids.py:91-95 | one loop step keeps the buffer's shape |
| PyramidExpand.Coef | 3/lib/pyramids.py:91-95 | the weight of input row i in output row k is zero more than two rows away from row 2i |
| PyramidExpand.DepositCell | 3/lib/pyramids.py:91-95 | one loop step adds the input row times its weight for the output row (2c, 2b, 2a, 2b, 2c around row 2i) |
| PyramidExpand.Part | 3/lib/pyramids.py:84-95 | the buffer after the loop up to row i is 2n rows of the same width |
| PyramidExpand.PartialStep | 3/lib/pyramids.py:90-95 | the closed form of the partial sums grows by exactly one loop step's deposit |
| PyramidExpand.PartCells | 3/lib/pyramids.py:84-95 | after the start and the loop up to row i, each cell holds the closed form of the deposits so far |
| PyramidExpand.DepositCells | 3/lib/pyramids.py:91-95 | one loop step takes the closed form from row i to row i+1 |
| PyramidExpand.DepositOne | 3/lib/pyramids.py:91-95 | the same for one cell |
| PyramidExpand.Finish | 3/lib/pyramids.py:97-100 | the ending keeps the buffer's shape |
| PyramidExpand.FinishCell | 3/lib/pyramids.py:97-100 | the ending overwrites the last output row with 2b times the last input row and adds the folded weights to the three rows before it |
| PyramidExpand.Expanded | 3/lib/pyramids.py:84-100 | the first-axis expansion is 2n rows of the same width, each cell given by the closed form `ExpandAt` |
| PyramidExpand.EndStep | 3/lib/pyramids.py:97-100 | the ending turns the loop's partial sums into the closed form |
| PyramidExpand.FinishIsExpanded | 3/lib/pyramids.py:84-100 | the start, the loop and the ending together give `Expanded` |
| PyramidExpand.FinishOne | 3/lib/pyramids.py:97-100 | the same for one cell |
| PyramidExpand.DepositRow | 3/lib/pyramids.py:91-95 | the five in-place `+=` of one loop step leave the buffer equal to `Deposit` of its old contents |
| PyramidExpand.FinishRows | 3/lib/pyramids.py:97-100 | the four in-place writes of the ending leave the buffer equal to `Finish` of its old contents |
| PyramidExpand.ExpandAxis | 3/lib/pyramids.py:84-100 | the first-axis code computes `Expanded` |
| PyramidExpand.Expanded2 | 3/lib/pyramids.py:72-120 | `expand_` of an h × w matrix is 2h × 2w |
| PyramidExpand.Expand | 3/lib/pyramids.py:72-120 | `expand_` computes `Expanded2`: the first axis, then the second through the transpose |
| PyramidExpand.ExpandedConstant | 3/lib/pyramids.py:84-100 | expanding a constant keeps it everywhere except the first row, which gets (a + 1/2) times it: the start of the expansion has no folded taps |
| Pyramids.Levels | 3/lib/pyramids.py:59-66 | the pyramid of a matrix with both sides at least 4 has at least two levels |
| Pyramids.Pyramid | 3/lib/pyramids.py:49-68 | the Gaussian pyramid has `Levels` entries and starts with the image itself |
| Pyramids.ShapedLike | 3/lib/pyramids.py:136-141 | a list with the same shapes as a well-shaped pyramid is well shaped |
| Pyramids.PyramidStep | 3/lib/pyramids.py:59-66 | the loop stops after the reduction that brings a side to 3 or less, and otherwise continues from the reduced image |
| Pyramids.ShapedCons | 3/lib/pyramids.py:59-66 | an image in front of a well-shaped pyramid of its reduction is well shaped |
| Pyramids.ReducesCons | 3/lib/pyramids.py:61-63 | an image in front of a pyramid starting with its reduction is a chain of reductions |
| Pyramids.InnerCons | 3/lib/pyramids.py:65 | the inner levels stay at least 4 on each side |
| Pyramids.PyramidShaped | 3/lib/pyramids.py:49-68 | each level is rectangular, at least 2 × 2, and half the previous one rounding up |
| Pyramids.PyramidLevels | 3/lib/pyramids.py:49-68 | each level is `reduce_` of the previous one, the inner levels are at least 4 × 4, and the last has a side of 3 or less |
| Pyramids.PyramidShapes | 3/lib/pyramids.py:49-68 | the pyramids of two images of the same shape have the same shapes, whatever `_a` |
| Pyramids.LikeTrans | 3/lib/pyramids.py:183-193 | having the same shapes is transitive |
| Pyramids.GrowingStep | 3/lib/pyramids.py:59-66 | the loop invariant survives an iteration that does not stop |
| Pyramids.GrowingEnd | 3/lib/pyramids.py:59-66 | at the stop, the list built is the whole pyramid |
| Pyramids.GaussianPyramid | 3/lib/pyramids.py:49-68 | `gaussian_pyramid` fails (inside the first `reduce_`) exactly when a side is below 4 and otherwise returns `Pyramid` |
| Pyramids.CropCols | 3/lib/pyramids.py:139 | dropping the last column when the finer level has an odd number of columns keeps the number of rows |
| Pyramids.CropShape | 3/lib/pyramids.py:137-140 | after the crops, the expansion has exactly the finer level's shape: the assertion on line 140 always holds |
| Pyramids.Up | 3/lib/pyramids.py:137-139 | the cropped expansion is h × w |
| Pyramids.UpCropped | 3/lib/pyramids.py:137-139 | cropping `expand_` gives `Up` |
| Pyramids.UpLevel | 3/lib/pyramids.py:137-139 | the expansion and the two crops compute `Up` |
| Pyramids.AddUp | 3/lib/pyramids.py:163-167 | one step of `recreate_`: the feature plus the cropped expansion |
| Pyramids.ShapedHalves | 3/lib/pyramids.py:136-140 | each level of a well-shaped pyramid is the half of the one before |
| Pyramids.Sub | 3/lib/pyramids.py:141 | `__g[_i] - _exp` entry by entry, with the first operand's shape |
| Pyramids.Add | 3/lib/pyramids.py:167 | `_k + _exp` entry by entry, with the first operand's shape |
| Pyramids.AddSub | 3/lib/pyramids.py:141-167 | adding back what was subtracted gives the matrix back |
| Pyramids.Laplacian | 3/lib/pyramids.py:132-145 | the Laplacian pyramid has as many levels as the Gaussian one |
| Pyramids.LaplacianPyramids | 3/lib/pyramids.py:124-145 | `laplacian_pyramids` fails exactly when `gaussian_pyramid` does and otherwise returns each level minus the cropped expansion of the next, then the last level |
| Pyramids.Differences | 3/lib/pyramids.py:136-143 | the loop and the final append compute `Laplacian` |
| Pyramids.Difference | 3/lib/pyramids.py:137-141 | one iteration computes level i of `Laplacian` |
| Pyramids.Collapse | 3/lib/pyramids.py:157-169 | the image rebuilt from level j on has level j's shape |
| Pyramids.CollapseStep | 3/lib/pyramids.py:161-167 | one loop step of `recreate_` moves the rebuilt image from level j to level j−1 |
| Pyramids.Recreate | 3/lib/pyramids.py:149-169 | `recreate_` fails on an empty list (`_lap[-1]`) and otherwise returns `Collapse` from level 0 |
| Pyramids.CollapseLevel | 3/lib/pyramids.py:161-167 | one iteration of the loop of `recreate_` |
| Pyramids.CollapseLaplacian | 3/lib/pyramids.py:124-169 | collapsing the Laplacian of any list of rectangular levels from level j gives level j back |
| Pyramids.RecreateInverts | 3/lib/pyramids.py:124-169 | `recreate_(laplacian_pyramids(img))` is the image, exactly, for any `_a` |
| Pyramids.LaplacianLevel | 3/lib/pyramids.py:136-143 | each Laplacian level has the shape of its Gaussian level |
| Pyramids.LaplacianShaped | 3/lib/pyramids.py:136-143 | the Laplacian pyramid is shaped like the Gaussian one |
| Pyramids.Mix | 3/lib/pyramids.py:189-193 | `p·m + q·(1−m)` has the shape of p |
| Pyramids.Mixed | 3/lib/pyramids.py:189-193 | every level of the blended pyramid mixes the two Laplacian levels with the mask level, keeping the shapes |
| Pyramids.Blend | 3/lib/pyramids.py:173-207 | `blend_` fails (the caught assertion, or `reduce_` on a small image) exactly when the three shapes differ or a side is below 4; otherwise it collapses the mixed pyramid, expanding with the default `_a` |
| Pyramids.BlendLevels | 3/lib/pyramids.py:189-199 | the loop of `blend_` computes the collapse of the mixed levels |
| Pyramids.BlendLevel | 3/lib/pyramids.py:193-199 | one iteration of that loop |
| Pyramids.PyramidConstant | 3/lib/pyramids.py:49-68 | every level of the pyramid of a constant image is that constant |
| Pyramids.MixConstant | 3/lib/pyramids.py:189-193 | an all-ones mask picks the first level, an all-zeros mask the second |
| Pyramids.MixedConstant | 3/lib/pyramids.py:189-193 | the same for whole pyramids |
| Pyramids.BlendConstantMask | 3/lib/pyramids.py:173-201 | blending with an all-ones mask gives the first image back, with an all-zeros mask the second |
| Pyramids.Thresholded | 3/lib/pyramids.py:215 | `np.where(abs(x) < _ctof, 0, x)` keeps the shape |
| Pyramids.Denoised | 3/lib/pyramids.py:213-215 | thresholding the last n levels keeps the number of levels |
| Pyramids.DenoisedLike | 3/lib/pyramids.py:213-215 | and their shapes |
| Pyramids.DenoisedStep | 3/lib/pyramids.py:214-215 | iteration i thresholds level −1−i |
| Pyramids.DenoisedNone | 3/lib/pyramids.py:213-214 | a non-positive range thresholds nothing |
| Pyramids.PyramidDenoise | 3/lib/pyramids.py:211-216 | `pyramid_denoise` fails when a side is below 4 or the range exceeds the number of levels (the `IndexError`), and otherwise recreates from the pyramid with the last `_rng` levels (all of them for −1) thresholded |
| Pyramids.Threshold | 3/lib/pyramids.py:214-215 | the loop fails exactly when it runs past the first level and otherwise computes `Denoised` |
| Pyramids.DenoisedShaped | 3/lib/pyramids.py:214-215 | thresholding keeps a pyramid well shaped |
| Pyramids.DenoiseNonPositive | 3/lib/pyramids.py:211-216 | with a cutoff of 0 or less `pyramid_denoise` gives the image back |
| Pyramids.DenoisedIdentity | 3/lib/pyramids.py:215 | with a cutoff of 0 or less no level changes |
| Filters.AverageFilterI | 1/image_enhancement.cpp:26-36 | for an odd size of at least 3 the kernel is size × size with every entry 1/size²; any other size leaves the caller's kernel as it was (the throw is caught inside) |
| Filters.AverageFilterII | 1/image_enhancement.cpp:42-46 | the fixed weighted-average kernel is 3 × 3 |
| Filters.BoostingFilterI | 1/image_enhancement.cpp:53-59 | fails exactly when the boost is below 1, and otherwise gives a 3 × 3 kernel with centre 4 + boost |
| Filters.BoostingFilterII | 1/image_enhancement.cpp:66-72 | fails exactly when the boost is below 1, and otherwise gives a 3 × 3 kernel with centre 8 + boost |
| Filters.Prewitt | 1/image_enhancement.cpp:79-93 | fails exactly when the orientation is neither 'H' nor 'V', and otherwise gives a 3 × 3 kernel |
| Filters.Sobel | 1/image_enhancement.cpp:100-114 | fails exactly when the orientation is neither 'H' nor 'V', and otherwise gives a 3 × 3 kernel |
| Filters.RowSumConstant | 1/image_enhancement.cpp:31 | a row of equal entries sums to its length times the entry |
| Filters.TotalConstant | 1/image_enhancement.cpp:31 | a constant h × w kernel sums to h·w times the entry |
| Filters.SquareReciprocal | 1/image_enhancement.cpp:30-31 | s·s entries of 1/s² add up to 1 |
| Filters.ScaledSum | 1/image_enhancement.cpp:151-152 | scaling a sum scales each part |
| Filters.RowSum3 | 1/image_enhancement.cpp:43-110 | a row of three sums to its three entries |
| Filters.Total3 | 1/image_enhancement.cpp:43-110 | a 3 × 3 kernel sums to its nine entries |
| Filters.AverageFilterISumsToOne | 1/image_enhancement.cpp:28-31 | the kernel of `average_filter_i` sums to 1 for every accepted size |
| Filters.AverageFilterIISumsToOne | 1/image_enhancement.cpp:43 | the kernel of `average_filter_ii` sums to 1 |
| Filters.BoostingFiltersSumToBoost | 1/image_enhancement.cpp:54-69 | both boosting kernels sum to the boost |
| Filters.EdgeFilters | 1/image_enhancement.cpp:81-103 | the Prewitt and Sobel kernels sum to 0, and the 'V' kernel of each is the transpose of its 'H' kernel |
| Filters.ClampToByte | 1/image_enhancement.cpp:162-165 | a sum of 0 or less gives 0, one of 255 or more gives 255, and one in between is truncated to the byte just below it |
| Filters.Insert | 1/image_enhancement.cpp:157 | insertion adds one entry |
| Filters.InsertSorted | 1/image_enhancement.cpp:157 | inserting into a sorted sequence keeps it sorted and adds exactly that value |
| Filters.SortedCons | 1/image_enhancement.cpp:157 | a value at most every entry can go in front of a sorted sequence |
| Filters.LowerBound | 1/image_enhancement.cpp:157 | a bound on the old entries and the new one bounds the result |
| Filters.Sort | 1/image_enhancement.cpp:157 | `std::sort` yields a sorted permutation of the values |
| Filters.SortedUnique | 1/image_enhancement.cpp:157 | two sorted arrangements of the same values are equal, so the sorted table does not depend on the sort used |
| Filters.SortedFirst | 1/image_enhancement.cpp:157 | the first entry of a sorted sequence is at most each of its values |
| Filters.SortedTail | 1/image_enhancement.cpp:157 | dropping the first entry keeps a sorted sequence sorted and removes one copy of that entry |
| Filters.Window | 1/image_enhancement.cpp:141-148 | the median table holds the 49 values of the 7 × 7 window |
| Filters.Median | 1/image_enhancement.cpp:156-158 | the value written in median mode is one of the window's values |
| Filters.MedianIsMiddle | 1/image_enhancement.cpp:156-158 | element 24 of any sorted arrangement of the window is the median: the 25 smallest positions hold values at most it and the 25 largest values at least it |
| Filters.MedianOfFlat | 1/image_enhancement.cpp:156-158 | the median of a window of equal values is that value |
| Filters.ConvRowFlat | 1/image_enhancement.cpp:143-153 | over a flat image, one kernel row contributes its row sum times the pixel value |
| Filters.ConvFlat | 1/image_enhancement.cpp:143-153 | over a flat image, the first k kernel rows contribute their total times the pixel value |
| Filters.ConvScaled | 1/image_enhancement.cpp:143-153 | one more kernel row adds its share to that total |
| Filters.FlatConvolution | 1/image_enhancement.cpp:135-165 | inside the border, filtering a flat image gives the clamped kernel total times the pixel value |
| Filters.Pad | 1/image_enhancement.cpp:130 | the border `(flen − 1) / 2` is at most half the kernel side, and an odd side is exactly 2·pad + 1 |
| Filters.FlatThroughKernels | 1/image_enhancement.cpp:42-165 | inside the border, a flat image comes out of `average_filter_ii` unchanged and out of both edge kernels in either orientation as 0 |
| Filters.FilteredInside | 1/image_enhancement.cpp:135-165 | inside the border, convolution mode writes the clamped convolution sum |
| Filters.ConvFull | 1/image_enhancement.cpp:143-153 | over a flat image the whole convolution sum is the kernel total times the pixel value |
| Filters.FlatMedian | 1/image_enhancement.cpp:141-158 | inside the border, median mode keeps a flat image unchanged |
| Filters.ApplyFilter | 1/image_enhancement.cpp:125-175 | `apply_filter` returns a fresh image of the input's size whose pixels within `pad` of the border are 0 and whose other pixels are the clamped convolution sum (or the 7 × 7 median in median mode) |
| Filters.PadOdd | 1/image_enhancement.cpp:130 | for an odd side, the window around a pixel is exactly the kernel's side |
| Filters.ConvolveAt | 1/image_enhancement.cpp:138-154 | the two convolution loops at (i, j) compute the sum of kernel entry times pixel over the window |
| Filters.ConvolveRow | 1/image_enhancement.cpp:144-153 | the inner loop adds one kernel row's products to the running sum |
| Filters.MedianAt | 1/image_enhancement.cpp:141-158 | filling the table column by column, sorting it and taking element 24 gives the window's median |
| Filters.SlotOf | 1/image_enhancement.cpp:147 | slot `l·7 + k` is distinct for each window offset (k, l) and recovers it |
| Equalisation.Pixels | 1/image_enhancement.cpp:188-190 | every pixel is visited once: height·width of them |
| Equalisation.VisitedLength | 1/image_enhancement.cpp:188-190 | after i whole columns and j more rows, i·h + j pixels have been visited |
| Equalisation.Counted | 1/image_enhancement.cpp:188-190 | counting keeps 256 entries |
| Equalisation.CountOne | 1/image_enhancement.cpp:190 | one more pixel of level v adds 1 to entry v and nothing else |
| Equalisation.Cumulated | 1/image_enhancement.cpp:196-197 | entry k of the accumulated map is the sum of the first k+1 counts |
| Equalisation.Stretched | 1/image_enhancement.cpp:204-206 | a zero entry stays 0, and an entry between `min` and `max` is stretched into [0, 220] |
| Equalisation.LowOf | 1/image_enhancement.cpp:193-199 | `min` is the least non-zero cumulative count among entries 0..254, or `INT32_MAX` when there is none |
| Equalisation.HighOf | 1/image_enhancement.cpp:193-201 | `max` is the greatest cumulative count among entries 1..255, or 0 |
| Equalisation.Round | 1/image_enhancement.cpp:206 | `std::round`: the nearest integer, halves away from zero |
| Equalisation.Stretch | 1/image_enhancement.cpp:204-207 | the stretched map keeps 256 entries |
| Equalisation.CdfMapOf | 1/image_enhancement.cpp:185-208 | the map `CDF_map` leaves keeps 256 entries |
| Equalisation.CdfMap | 1/image_enhancement.cpp:185-208 | `CDF_map` leaves the map equal to the stretched cumulative histogram of the image added to what it held |
| Equalisation.Count | 1/image_enhancement.cpp:188-190 | the counting loop adds each level's pixel count to its entry |
| Equalisation.Accumulate | 1/image_enhancement.cpp:193-202 | the accumulating loop leaves the running sums and returns `min` and `max` as defined above |
| Equalisation.StretchAll | 1/image_enhancement.cpp:204-207 | the stretching loop maps every non-zero entry c to round((c − min)/(max − min)·220) and leaves zeros |
| Equalisation.ToUchar | 1/image_enhancement.cpp:242 | `(uchar)` keeps a value in [0, 255] and otherwise reduces it modulo 256 |
| Equalisation.Equalise | 1/image_enhancement.cpp:230-243 | `global_histogram_equilisation` returns a fresh image of the input's size in which each pixel is the given map's entry at the input pixel, or the fresh CDF map's entry when none is given |
| Equalisation.Apply | 1/image_enhancement.cpp:238-242 | the writing loop sends every pixel through the map |
| Equalisation.AtMost | 1/image_enhancement.cpp:188-197 | the number of pixels at level k or below is at most the pixel count |
| Equalisation.SumMonotone | 1/image_enhancement.cpp:196-197 | partial sums of non-negative counts do not decrease |
| Equalisation.SumBump | 1/image_enhancement.cpp:190-197 | adding one pixel of level v adds 1 to every partial sum past v |
| Equalisation.SumZeros | 1/image_enhancement.cpp:233 | the partial sums of the zeroed map are 0 |
| Equalisation.CountsAtMost | 1/image_enhancement.cpp:188-197 | from a zeroed map, entry k of the cumulative histogram is the number of pixels at level k or below |
| Equalisation.CumulativeHistogram | 1/image_enhancement.cpp:188-202 | from a zeroed map, the accumulated map is the cumulative histogram: non-negative, non-decreasing, ending at the pixel count |
| Equalisation.AllAtMost | 1/image_enhancement.cpp:188-197 | when all pixels are at most k the count at k is the pixel count; when all are above it, 0 |
| Equalisation.SomeAtMost | 1/image_enhancement.cpp:188-197 | a pixel at most k makes the count at k positive; a pixel above it keeps the count below the total |
| Equalisation.HighIsLast | 1/image_enhancement.cpp:200-201 | for a cumulative histogram `max` is its last entry |
| Equalisation.Scale | 1/image_enhancement.cpp:206 | a/d·220 and b/d·220 stay in [0, 220] and in order for 0 ≤ a ≤ b ≤ d |
| Equalisation.RoundMonotone | 1/image_enhancement.cpp:206 | rounding keeps order |
| Equalisation.RoundBounds | 1/image_enhancement.cpp:206 | rounding keeps a value in [0, 220] within [0, 220] |
| Equalisation.StretchedEntry | 1/image_enhancement.cpp:193-206 | every non-zero entry of a cumulative histogram lies between `min` and `max` (the last entry can fall below `min` only if it is `max`) |
| Equalisation.StretchedBounds | 1/image_enhancement.cpp:206 | each stretched entry lies in [0, 220], and `max` goes to 220 |
| Equalisation.StretchedOrder | 1/image_enhancement.cpp:206 | stretching keeps order |
| Equalisation.StretchRange | 1/image_enhancement.cpp:204-207 | the stretched map lies in [0, 220], keeps zeros, and sends the last entry to 220 when it is non-zero |
| Equalisation.StretchMonotone | 1/image_enhancement.cpp:204-207 | the stretched map is non-decreasing |
| Equalisation.DividesByZeroIff | 1/image_enhancement.cpp:193-206 | for a zeroed map (and fewer than `INT32_MAX` pixels), `max − min` is 0 while some entry is non-zero exactly when every pixel has one level v below 255 |
| Equalisation.CdfMapShape | 1/image_enhancement.cpp:185-208 | from a zeroed map, the CDF map is non-decreasing, in [0, 220], 0 below the darkest pixel and 220 at level 255 |
| Equalisation.EqualiseKeepsOrder | 1/image_enhancement.cpp:230-242 | with the CDF map the `(uchar)` cast loses nothing, and a darker pixel never comes out brighter than a lighter one |
| Histogram.Insert | 5/lib/histogram.py:15-16 | inserting into a strictly increasing sequence keeps it strictly increasing and adds exactly that value |
| Histogram.IncreasingCons | 5/lib/histogram.py:15-16 | a value below every entry can go in front of a strictly increasing sequence |
| Histogram.AboveFirst | 5/lib/histogram.py:15-16 | after an insertion above the first entry, every entry of the rest lies above it |
| Histogram.Unique | 5/lib/histogram.py:15-16 | `np.unique` gives the distinct values in strictly increasing order: exactly the values of the input, none when it is empty |
| Histogram.IncreasingIsCanonical | 5/lib/histogram.py:15-16 | two strictly increasing sequences with the same values are equal, so the distinct-value list is determined by the values |
| Histogram.IndexOf | 5/lib/histogram.py:15-27 | `return_inverse`: the position in the distinct values that holds a pixel's value |
| Histogram.IndexOrder | 5/lib/histogram.py:15-27 | a smaller value has a position no later than a larger one |
| Histogram.Counts | 5/lib/histogram.py:15-16 | `return_counts`: one count per distinct value, and each value present in the image is counted at least once |
| Histogram.CumSum | 5/lib/histogram.py:18-21 | `np.cumsum`: same length, first entry the first count, each next entry the previous one plus its count |
| Histogram.CumSumIncreases | 5/lib/histogram.py:18-21 | with every count at least 1, the cumulative sums are at least 1 and strictly increasing |
| Histogram.CumSumStrict | 5/lib/histogram.py:18-21 | the same, for all positions at once |
| Histogram.Cdf | 5/lib/histogram.py:18-22 | the normalised CDF of positive counts is strictly increasing and ends at 1 |
| Histogram.Normalise | 5/lib/histogram.py:19-22 | dividing strictly increasing sums by the last one gives a strictly increasing sequence ending at 1 |
| Histogram.NormaliseIncreasing | 5/lib/histogram.py:19-22 | dividing strictly increasing sums by the positive last one keeps them strictly increasing |
| Histogram.LineBetween | 5/lib/histogram.py:24 | on a rising segment numpy's line lies between the end values and rises with x |
| Histogram.InterpBounds | 5/lib/histogram.py:24 | `np.interp` over non-decreasing values stays between the first and last value and reaches the last one from the last abscissa on |
| Histogram.InterpMonotone | 5/lib/histogram.py:24 | `np.interp` over non-decreasing values never decreases with x |
| Histogram.Matched | 5/lib/histogram.py:15-24 | one matched template value per distinct source value |
| Histogram.Interp | 5/lib/histogram.py:24 | `np.interp` gives the first value at or left of the first point and the last value at or right of the last point |
| Histogram.MatchHist | 5/lib/histogram.py:7-27 | `match_hist` fails exactly when the source or the template is empty, and otherwise returns one value per source pixel, the same value for equal source pixels |
| Histogram.Lowest | 5/lib/histogram.py:16 | the least template value is one of its values and at most all of them |
| Histogram.Highest | 5/lib/histogram.py:16 | the greatest template value is one of its values and at least all of them |
| Histogram.MatchRange | 5/lib/histogram.py:7-27 | every matched pixel lies between the least and greatest template value |
| Histogram.MatchMonotone | 5/lib/histogram.py:7-27 | matching keeps order: a darker source pixel never comes out brighter |
| Histogram.MatchTop | 5/lib/histogram.py:7-27 | the brightest source level goes to the brightest template value |
| Disc.Mask | 2/lib/blurring.py:14-21 | the mask is (2n+1) × (2n+1), 0 exactly at the cells farther than the radius from the centre and 1 elsewhere |
| Disc.FoldDistance | 2/lib/blurring.py:17-21 | a cell and its mirror images in the quadrant the loops visit lie at the same distance from the centre |
| Disc.DiscMask | 2/lib/blurring.py:14-21 | the two loops, zeroing four mirrored cells at a time, build exactly the mask |
| Disc.ZeroMirrors | 2/lib/blurring.py:18-21 | the four assignments zero the cell (i, j) and its three mirrors and change nothing else |
| Disc.Divide | 2/lib/blurring.py:22 | `_m / s` keeps the shape and divides every entry by s |
| Disc.DivideShape | 2/lib/blurring.py:22 | dividing keeps the matrix's dimensions |
| Disc.RowSumDivide | 2/lib/blurring.py:22 | a row of quotients sums to the row's sum divided by the same number |
| Disc.TotalDivide | 2/lib/blurring.py:22 | the divided matrix sums to the sum divided by the same number |
| Disc.RowSumAtLeast | 2/lib/blurring.py:22 | a row of non-negative entries sums to at least each entry, and to at least 0 |
| Disc.TotalAtLeast | 2/lib/blurring.py:22 | a matrix of non-negative entries sums to at least each entry |
| Disc.TotalNonNegative | 2/lib/blurring.py:22 | a matrix of non-negative entries has a non-negative sum |
| Disc.MaskTotalPositive | 2/lib/blurring.py:14-22 | the centre is never zeroed, so `_m.sum()` is at least 1 and the division is defined |
| Disc.Kernel | 2/lib/blurring.py:12-22 | the kernel is (2n+1) × (2n+1) |
| Disc.KernelEntry | 2/lib/blurring.py:17-22 | each kernel entry is 0 exactly outside the disc and 1/(number of cells inside) inside it, so never negative |
| Disc.MaskDivided | 2/lib/blurring.py:22 | dividing the mask by s gives 0 outside the disc and 1/s inside |
| Disc.KernelTotal | 2/lib/blurring.py:22 | the kernel sums to 1 |
| Disc.KernelSymmetric | 2/lib/blurring.py:17-21 | the kernel is symmetric about both central axes |
| Disc.DiscPlain | 2/blurring.py:10-22 | `disc(n)` fails exactly for a negative n, and otherwise returns a fresh matrix equal to the kernel of radius n |
| Disc.DiscRatio | 2/lib/blurring.py:12-24 | `disc(n, r)` fails exactly for a negative n or r = 0, and otherwise returns a fresh matrix equal to the kernel of radius n/r |
| Disc.Normalise | 2/lib/blurring.py:22 | `_m / _m.sum()` returns a fresh matrix of the same size equal to the input divided by its (positive) sum |
| Disc.RatioOneIsPlain | 2/lib/blurring.py:12-22 | `disc(n, 1)` is `disc(n)` of 2/blurring.py |
| RowAverage.ChannelSum | 0/img_process.py:35 | a row's channel sum is at most 255 per pixel |
| RowAverage.Mean | 0/img_process.py:35 | the average pixel has one entry per channel, each in [0, 255] and equal to the channel sum divided by the row length |
| RowAverage.MeanOf | 0/img_process.py:35 | a channel mean lies in [0, 255] and times the width gives the sum back |
| RowAverage.DivideBounded | 0/img_process.py:35 | the quotient of a byte sum by the width lies in [0, 255] and times the width gives the sum back |
| RowAverage.Process | 0/img_process.py:29-37 | `process` returns an image of the input's size in which every pixel of row i is row i's mean colour |
| RowAverage.CppMean | 0/img_process.cpp:78-83 | the C++ pixel has three channels, each the largest byte q with q·width at most the channel sum |
| RowAverage.ByteQuotient | 0/img_process.cpp:78-80 | integer division of a byte sum by the width fits a byte and is the floor of the quotient |
| RowAverage.QuotientBounds | 0/img_process.cpp:78-80 | the same for Dafny's division |
| RowAverage.RowOf | 0/img_process.cpp:71-76 | the row the loop reads holds the pixels of row i in order |
| RowAverage.AverageRows | 0/img_process.cpp:64-85 | the C++ loop returns a fresh image of the input's size whose every pixel of row i is the truncated mean of row i |
| RowAverage.RowSums | 0/img_process.cpp:69-76 | the summing loop leaves the three channel sums, each within `int` |
| RowAverage.CppIsFloorOfMean | 0/img_process.cpp:78-80 | each C++ channel value is the floor of the mean that 0/img_process.py computes |
| RowAverage.FloorOfQuotient | 0/img_process.cpp:78-80 | q·w ≤ s < (q+1)·w makes q the floor of s/w |
| Windows.Slice | 5/lib/non_parametric.py:22-37 | a numpy slice `a[r0:r1, c0:c1]` has the slice's shape and holds the cells of `a` from (r0, c0) on |
| Windows.Paste | 5/lib/non_parametric.py:24-35 | assigning a block into a slice of `np.zeros` gives the block at its place and zero elsewhere |
| Windows.Nb | 5/lib/non_parametric.py:12-39 | `nb` returns a neighbourhood of the requested m × n shape in all eight branches |
| Windows.NbCells | 5/lib/non_parametric.py:20-37 | with `tp`, cell (i, j) of the neighbourhood is the template cell (x − m + 1 + i, y − n + j), or zero where that lies above or left of the template; without `tp`, the cell (x − m + i, y + j), or zero above or right of it |
| Windows.DivMonotone | 5/lib/non_parametric.py:46 | `//` by a positive number keeps order |
| Windows.PointFits | 5/lib/non_parametric.py:46-50 | when the last pixel's point fits, every pixel's point does |
| Windows.NbAt | 5/lib/non_parametric.py:46 | the neighbourhood the lambda gives for pixel k has the requested shape |
| Windows.Collect | 5/lib/non_parametric.py:48-50 | the loop appends, for each of the h·w pixels in turn, the lambda's neighbourhood of that pixel |
| Windows.NbAtSlot | 5/lib/non_parametric.py:46-53 | after the reshape, slot (a, b) holds the neighbourhood at column b and row (a·w + b) // d, which is row a when d = w |
| Windows.SlotBelow | 5/lib/non_parametric.py:53 | a·cols + b lies below rows·cols |
| Windows.Slot | 5/lib/non_parametric.py:53 | the row-major slot of (a, b) lies inside the flat sequence |
| Windows.Reshape | 5/lib/non_parametric.py:53 | reshaping rows·cols entries gives a rows × cols grid |
| Windows.ReshapeCell | 5/lib/non_parametric.py:53 | `reshape` puts flat entry a·cols + b at (a, b) |
| Windows.RowMajor | 5/lib/non_parametric.py:64 | (a·cols + b) // cols = a and (a·cols + b) % cols = b for b < cols |
| Windows.FlattenLength | 5/lib/non_parametric.py:62 | flattening a rows × cols grid gives rows·cols entries |
| Windows.FlattenCell | 5/lib/non_parametric.py:62 | flattening puts cell (a, b) at a·cols + b |
| Windows.ArgMin | 5/lib/non_parametric.py:62 | `np.argmin` fails exactly on an empty sequence, and otherwise gives the first index of a least value |
| Windows.SliceStart | 5/lib/non_parametric.py:69 | the start of `[rng:]` lies within the axis and is `rng` itself when `rng` is in range |
| Windows.SqDist | 5/lib/non_parametric.py:69 | a squared vector norm of a difference is non-negative and 0 between equal vectors |
| NonParametric.TallFits | 5/lib/non_parametric.py:46 | every point (x // h, x % w) of `create_nb` fits the template exactly when it is at least as tall as wide (one row less without `tp`) |
| NonParametric.DivAtLeast | 5/lib/non_parametric.py:46 | x ≥ d·q makes x // d ≥ q |
| NonParametric.CreateNb | 5/lib/non_parametric.py:42-55 | `create_nb` returns an h × w grid whose slot (a, b) holds the neighbourhood of the point the loop computes for pixel a·w + b |
| NonParametric.CreateNbSquare | 5/lib/non_parametric.py:46 | on a square template slot (a, b) holds the neighbourhood of pixel (a, b) |
| NonParametric.CreateNbMisplaces | 5/lib/non_parametric.py:46 | on a 3 × 2 template slot (1, 0) holds the neighbourhood of pixel (0, 0), which differs from that of (1, 0) |
| NonParametric.Dist | 5/lib/non_parametric.py:69 | the squared distance of two neighbourhoods over their rows from s on is non-negative and 0 between equal ones |
| NonParametric.Distances | 5/lib/non_parametric.py:69 | one distance per template neighbourhood, that neighbourhood's distance to the given one |
| NonParametric.MatchNbLinear | 5/lib/non_parametric.py:67-73 | `match_nb_linear` fails exactly on an empty list, and otherwise returns the first index of a neighbourhood nearest to the given one over the rows from `rng` on |
| NonParametric.MatchNbLinearExact | 5/lib/non_parametric.py:67-73 | when the list holds the neighbourhood itself, the match is at distance 0 |
| NonParametric.DistanceGrid | 5/lib/non_parametric.py:60 | the grid of distances holds each slot's distance to the given neighbourhood |
| NonParametric.MatchNb | 5/lib/non_parametric.py:58-64 | `match_nb` fails exactly on an empty grid, and otherwise returns a non-negative row and a column inside the grid |
| NonParametric.QuotientRemainder | 5/lib/non_parametric.py:64 | i // rows ≥ 0 and i % cols lies in [0, cols) |
| NonParametric.MatchSlot | 5/lib/non_parametric.py:58-64 | the corrected match fails exactly on an empty grid, and otherwise returns a slot inside it whose neighbourhood is nearest to the given one |
| NonParametric.FlatArgMin | 5/lib/non_parametric.py:62 | `np.argmin` over the grid gives a flat index whose row-major cell is a least one |
| NonParametric.LeastCell | 5/lib/non_parametric.py:62 | the least flat entry is the least cell, at (i // cols, i % cols) |
| NonParametric.SlotOf | 5/lib/non_parametric.py:64 | a flat index decomposes into a row and column inside the grid |
| NonParametric.MatchNbSquare | 5/lib/non_parametric.py:64 | on a square grid `match_nb` returns the nearest slot |
| NonParametric.MatchNbOutOfRange | 5/lib/non_parametric.py:64 | on a 1 × 2 grid whose nearest slot is (0, 1), `match_nb` returns row 1, outside the grid |
| NpColor.Black | 5/lib/npcolor.py:18 | the zero pixel has the channel count and every channel 0 |
| NpColor.Nb | 5/lib/npcolor.py:12-39 | `nb` returns an m × n neighbourhood, and its pixels have the template's channel count |
| NpColor.NbChecked | 5/lib/npcolor.py:12-39 | `nb` on an image whose pixels have k channels fails exactly when a branch that writes into the zero block meets k other than c or 1; a whole slice keeps k channels, k = c gives `Nb`, and k = 1 is broadcast to c channels |
| NpColor.RowMajorFits | 5/lib/npcolor.py:46 | every point (x // w, x % w) of `create_nb` fits the template, whatever its shape |
| NpColor.CreateNb | 5/lib/npcolor.py:42-56 | `create_nb` returns an h × w grid whose slot (a, b) holds the neighbourhood of pixel (a, b) |
| NpColor.RowDist | 5/lib/npcolor.py:61 | the squared distance of two rows of pixels is non-negative and 0 between equal rows |
| NpColor.Dist | 5/lib/npcolor.py:61 | the squared distance of two neighbourhoods over their rows from s on is non-negative and 0 between equal ones |
| NpColor.Distances | 5/lib/npcolor.py:61 | one distance per template neighbourhood, that neighbourhood's distance to the given one |
| NpColor.MatchNbLinear | 5/lib/npcolor.py:59-65 | `match_nb_linear` fails exactly on an empty list, and otherwise returns the first index of a neighbourhood nearest to the given one over the rows from `rng` on |
| NpColor.MatchNbLinearExact | 5/lib/npcolor.py:59-65 | when the list holds the neighbourhood itself, the match is at distance 0 |
| NpColor.NbsComparable | 5/lib/npcolor.py:12-39 | any two neighbourhoods of one template have the same shape, so their distance is defined |

## Left out

- Floating point: every sample is an exact real, so the round trips are exact identities. `float` rounding, the `short` lengths of 3/lib/lazy/lifting.hpp and `np.float64` are not modelled.
- Haar: the √2 of 3/lib/haar.hpp is the parameter `s` with `s·s = 2`, not a rounded float.
- RunLength.SaturateByte: OpenCV's 8-bit `convertTo` (round half to even, then clamp to [0, 255]) is written out here. How OpenCV rounds NaN and infinities is not modelled.
- C++ `assert`s and out-of-range `.at<>` reads are preconditions. Examples are the power-of-two tests of 3/lib/lazy/lifting.hpp and the exact-consumption `assert` of `recreate_image`. Aborting is not modelled.
- LiftingCpp.LazyTransform, LiftingCpp.LazyInverse: the preconditions exclude shapes on which the rows or columns are shorter than the lengths passed to them (`CFits`, `CInvFits`). On those shapes the C++ code reads outside the matrix.
- LazyWaveletPy.LazyInverse: requires the shape `lazy_transform` accepts. On other shapes numpy's slice clamping and broadcasting errors are not modelled.
- Gaussian.GaussianSpecial, Gaussian.LaplacianSpecial: `_lvl` is a natural number. A negative `_lvl`, which Python accepts and answers with the image alone, is not modelled.
- Gaussian: the `-=`/`+=` slice updates of 5/lib/gaussian.py act on copies. They are modelled on values, so their in-place form is not captured.
- RunLength.DraftRunLengthEncode: requires the first coefficient to differ from −1. At −1 the float division gives infinities or NaN.
- Equalisation.CdfMap, Equalisation.Equalise: require that `max − min` is non-zero unless the map is all zeros. When all pixels share one level below 255, the float division by zero gives NaN. `Equalisation.DividesByZeroIff` characterises exactly that case.
- Filters.ApplyFilter: in convolution mode it requires a square kernel with an odd side. For an even side the C++ window reads one row and column past the border.
- Filters.AverageFilterI: the `_filter` the C++ code leaves unassigned after the caught throw is the caller's kernel, unchanged.
- Histogram.MatchHist: models a float source. The final `astype(_tp)` truncation for integer dtypes is not modelled.
- Windows.Nb: the two interior branches of `nb` return a numpy view of the template rather than a copy. Aliasing is not modelled, because nothing here writes to it.
- Windows.Nb, NonParametric.CreateNb: points outside `Fits` are excluded. At such a point numpy clamps the slice of the template, and the block is smaller than its target. numpy broadcasts it along an axis where it has length 1: for a 1 × 2 template, `_shp` (2, 2), `_tp` true and the point (1, 1), the one template row fills both rows. Where it does not broadcast numpy raises `ValueError`, and a whole-slice branch returns the smaller block. `NonParametric.TallFits` says exactly which templates avoid such points.
- NpColor.CreateNb: builds the neighbourhoods with `NpColor.Nb`, for templates whose pixels have the `c` channels of `_shp`. `NpColor.NbChecked` gives what `nb` does on another channel count. Stacking neighbourhoods of different shapes with `np.array` is not modelled.
- RowAverage.AverageRows: requires rows of at most `MaxWidth` pixels, so that the `int` channel sums cannot overflow (`RowAverage.MaxWidthIsTight`). Longer rows overflow a signed `int`, which is undefined behaviour.
- I/O and command-line plumbing are not modelled:
  - image loading, saving and showing;
  - `write_run_length` and `read_run_length`;
  - every `main`, argument parser and `trace`.
- `reset_cut` (never called) and `write_haar` (only prints a histogram) are not part of this model.
- `blur_edge` and `disc_blur` call OpenCV filters, which are not part of this model.
- The float colour operations of 1/image_enhancement.cpp are not part of this model, because they use `pow` and float colour weights: `gamma_correction_map`, `get_luminance`, `change_luminance`.
- Not part of this model, because they rest on FFTs and transcendental floats: steerable pyramids, FFT wrappers, deblurring, PSNR/SSIM metrics and the total-variation denoiser.
- Randomness is not modelled: noise generation, and the random synthesis loops under `__main__` in 5/lib/non_parametric.py and 5/lib/npcolor.py.
- 5/lib/np.cpp, 5/lib/texture.py and the OpenCV feature and contour pipelines are not part of this model.

## Findings

| source | as written | input that shows it | evidently intended | confidence | as-written member | corrected member |
|---|---|---|---|---|---|---|
| 5/lib/non_parametric.py:46 | pixel k is taken at row `k // _m` (the height), column `k % _n` | a 3 × 2 template: slot (1, 0) gets the neighbourhood of pixel (0, 0) | row `k // _n`, row-major as in 5/lib/npcolor.py:46 | high, not executed | NonParametric.CreateNbMisplaces | NonParametric.CreateNbSquare |
| 5/lib/non_parametric.py:64 | the flat argmin i is split as `(i // shape[0], i % shape[1])` | a 1 × 2 grid whose nearest slot is (0, 1): the result is (1, 1), outside the grid | `(i // shape[1], i % shape[1])` | high, not executed | NonParametric.MatchNbOutOfRange | NonParametric.MatchSlot |
| 3/lib/pyramids.py:31, 42-43 | the ending formula is chosen by the parity of the output length `_len` | six rows: output row 2 gives input row 4 the weight 2b instead of a | the parity of the input length, so that output row k is centred on input row 2k | medium, not executed | PyramidReduce.AsWrittenOffCentre | PyramidReduce.ReducedCentred |
| 3/lib/lazy/lifting.hpp:98, 105, 122 | rows are lifted with the height `__l1` and columns with the width `__l2`, and the recursion swaps the two | an image of height 4 and width 8: the column pass lifts columns of length 4 with length 8 | rows with the width and columns with the height, so that non-square power-of-two images round-trip | medium, not executed | LiftingCpp.NonSquareRejected | LiftingCpp.FixedRoundTrip |
| 3/lib/haar_compression.cpp:46-58 | the run counter starts at 1 and pixel (0, 0) is counted again; nothing is pushed after the loop | bytes [1, 1, 2] encode to [(1, 3)]; four equal bytes encode to no run at all | runs that expand back to the bytes, as in 3/lib/haar/haar_compression.cpp:75-88 | high, not executed | RunLength.DraftCounterexamples | RunLength.EncodeIsRunLength |
