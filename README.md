# Matft vDSP and linear-algebra core, modelled in Dafny

This project models two files of Matft, a NumPy-like N-dimensional array
library for Swift:

- `Sources/Matft/library/vDSP.swift`: the layer that drives Apple's vDSP
  and vForce kernels. The model covers:
  - the boolean, inverted-boolean, sign and clip coercions;
  - reductions along an axis, both value (`stats`) and index (`stats_index`);
  - sorting and argsorting along an axis;
  - the N-dimensional dot product;
  - the shape of a boolean-mask get;
  - the 1-D fancy-index gather;
  - the batched real FFT.
- `Sources/Matft/core/function/linear_algebra.swift`: `solve`, `inv` and
  `det`. These use LAPACK over a stack of N×N matrices.

An mfarray is `MfCore.MfArray`: a stored buffer of `real` values with a
shape and strides. Each `*_by_vDSP` driver is modelled in the source's own
form:

- a method with the source's loop, or a function where the source only
  computes a value;
- the vDSP kernel it calls is either a small function with the kernel's
  documented meaning, or a function parameter when only the layout around
  the kernel is modelled.

Each kernel is modelled like this:

| kernel | modelled as |
|---|---|
| vminmg, viclip, vsadd, fabs, copysign, vclip | small functions with the documented element meaning |
| vgathr | 1-based offsets, as documented |
| vsort, vsorti | insertion sorts; vsort's result is proved to be the unique sorted permutation of the row, vsorti's indices a permutation of 0 ..< count through which the row reads sorted (unique only up to the order of equal elements) |
| vDSP_dotpr | `DotProduct.RealDot`, the sum of the products of two equal-length runs |
| reductions, index reductions | the function parameters `reduce` and `pick` |
| the zrop FFT | `zrRe` and `zrIm` |
| LAPACK getrf and getri | `lu` and `inv` |

The modules are:

| module | models | contents |
|---|---|---|
| `MfCore` | shared types | `Option`, `Result`, the stored type, the sort order, `MfArray` |
| `Shapes` | row-major shape arithmetic | sizes, strides, multi-index unravelling |
| `Blocks` | row-after-row buffer loops | overwriting a run, applying a kernel to consecutive rows |
| `Coercion` | `wrap_vDSP_toBool`, `toIBool`, `sign`, `clip` and their drivers | |
| `Reduction` | `stats_by_vDSP`, `stats_index_by_vDSP` | |
| `Sorting` | `sort_by_vDSP`, `argsort_by_vDSP` | |
| `Indexing` | `boolget_by_vDSP` result shape, `fancy1dgetcol_by_vDSP` | |
| `DotProduct` | `dotpr_by_vDSP` | |
| `Fft` | `fft_zr_by_vDSP` | |
| `LinearAlgebra` | `_withNNStackedColumnMajorPtr`, `det`, `inv`, `solve`'s preconditions and setup | |

Where the code does the wrong thing, the model states what the code does.
It then proves a corrected version, and the rest of the model uses the
corrected version (see "## Findings"). This happens in three places:

- the determinant's sign rule;
- the contraction length of `dotpr_by_vDSP`;
- the FFT sizing.

The code also differs from the documented behaviour in two places:

- The documented rule is that the determinant flips sign once per swapped
  pivot. The code flips it once per pivot that was NOT swapped.
- The documented rule is that the FFT pads to the next power of two. The
  code rounds the length down to a power of two.

In both cases the as-written member models the code.

## Model

| member | source | states |
|---|---|---|
| Coercion.MinMag | Sources/Matft/library/vDSP.swift:187 | vminmg against a scalar is the smaller magnitude: one of the two magnitudes, never above either |
| Coercion.InvClip | Sources/Matft/library/vDSP.swift:193 | viclip keeps values at or outside [lo, hi]; values strictly inside go to lo when negative and to hi otherwise |
| Coercion.CopySign | Sources/Matft/library/vDSP.swift:248 | copysign keeps the magnitude and takes the sign of the second operand |
| Coercion.Clip | Sources/Matft/library/vDSP.swift:262 | vclip returns the value, lo or hi; for lo <= hi the result lies in [lo, hi] and values already inside are kept |
| Coercion.BoolValue | Sources/Matft/library/vDSP.swift:182-194 | the vminmg-then-viclip chain gives 0 or 1, and gives 1 exactly when the input is non-zero |
| Coercion.IBoolValue | Sources/Matft/library/vDSP.swift:204-222 | adding -1 and then taking the absolute value gives 0 or 1, and gives 1 exactly when the input is zero |
| Coercion.SignValue | Sources/Matft/library/vDSP.swift:234-249 | copying the source's sign onto the boolean gives +1 for positive inputs, -1 for negative and 0 for zero |
| Coercion.IBoolComplement | Sources/Matft/library/vDSP.swift:204-222 | the inverted boolean is 1 minus the boolean |
| Coercion.SignTimesAbs | Sources/Matft/library/vDSP.swift:234-249 | sign times magnitude gives the value back; the sign's magnitude is the boolean |
| Coercion.ClipIdempotentMonotone | Sources/Matft/library/vDSP.swift:258-263 | clipping twice equals clipping once, and clipping preserves order |
| Coercion.Pass | Sources/Matft/library/vDSP.swift:187-193 | one element-wise pass over `size` elements, possibly in place: the first `size` destination elements become f of the old source elements; the rest of dst is unchanged |
| Coercion.Pass2 | Sources/Matft/library/vDSP.swift:248 | the two-operand pass (copysign): the first `size` destination elements become f of the old elements of both operands; the rest of dst is unchanged |
| Coercion.WrapToBool | Sources/Matft/library/vDSP.swift:182-194 | the first size destination elements become 0 where the source is zero and 1 elsewhere; the rest of dst is unchanged |
| Coercion.WrapToIBool | Sources/Matft/library/vDSP.swift:204-222 | the four passes leave 1 where the source is zero and 0 elsewhere; the rest of dst is unchanged |
| Coercion.WrapSign | Sources/Matft/library/vDSP.swift:234-249 | the three passes leave +1, -1 or 0 according to the source's sign; the rest of dst is unchanged |
| Coercion.ToBoolByVDSP | Sources/Matft/library/vDSP.swift:1050-1064 | a new buffer of the same length, shape and strides, holding 0/1 by non-zeroness element by element |
| Coercion.ToIBoolByVDSP | Sources/Matft/library/vDSP.swift:1069-1083 | a new buffer of the same length, shape and strides, holding 1 where the source is zero and 0 elsewhere |
| Coercion.SignByVDSP | Sources/Matft/library/vDSP.swift:1030-1045 | a new buffer of the same length, shape and strides, holding each element's sign |
| Coercion.ClipByVDSP | Sources/Matft/library/vDSP.swift:999-1021 | a new buffer of the same length, shape and strides, each element clipped; for minval <= maxval every element lies in range and in-range elements are kept |
| Reduction.PositiveAxis | Sources/Matft/library/vDSP.swift:805 | a negative axis counts from the end, and the result is a valid axis |
| Reduction.Strided | Sources/Matft/library/vDSP.swift:298 | the run a kernel reads from (pointer, stride, count) has count elements, all inside the buffer |
| Reduction.RunIsLane | Sources/Matft/library/vDSP.swift:806-824 | for output slot d, the flat start index with the axis stride and count lies in the buffer, and reads exactly the lane along the axis at the d-th remaining multi-index |
| Reduction.StridePositive | Sources/Matft/library/vDSP.swift:864-878 | while there is an output slot, the axis stride is positive, so the division by ui_stride is defined |
| Reduction.StatsByVDSP | Sources/Matft/library/vDSP.swift:800-845 | on an axis of an array of rank > 1: the shape without the axis (or with size 1 there under keepDims), one output per remaining index, each the reduction of its lane, with outputs times axis length equal to the input size; otherwise a single value, the reduction of the whole buffer, of shape [1] or all-ones; row-major strides |
| Reduction.LaneIndex | Sources/Matft/library/vDSP.swift:876-878 | the kernel's offset in pointer units divided by the axis stride is the position pick chose in the lane |
| Reduction.StatsIndexByVDSP | Sources/Matft/library/vDSP.swift:854-906 | like StatsByVDSP, but each output is the position along the axis that pick chose in its lane; without an axis, the raw whole-buffer index |
| Sorting.Insert | Sources/Matft/library/vDSP.swift:273 | inserting into a row makes it one element longer |
| Sorting.InsertPerm | Sources/Matft/library/vDSP.swift:273 | insertion adds exactly the inserted element to the multiset |
| Sorting.InsertSorted | Sources/Matft/library/vDSP.swift:273 | insertion into a sorted row keeps it sorted in the requested order |
| Sorting.ConsSorted | Sources/Matft/library/vDSP.swift:273 | a head that precedes every later element, in front of a sorted row, gives a sorted row |
| Sorting.Sort | Sources/Matft/library/vDSP.swift:273 | the vsort kernel keeps the row's length |
| Sorting.SortSpec | Sources/Matft/library/vDSP.swift:272-274 | vsort's result is sorted in the requested order and is a permutation of the row |
| Sorting.Range | Sources/Matft/library/vDSP.swift:965 | the initial index array 0 ..< count |
| Sorting.RangeSnoc | Sources/Matft/library/vDSP.swift:965 | the multiset of 0 ..< n is that of 0 ..< n-1 plus n-1 |
| Sorting.Gather | Sources/Matft/library/vDSP.swift:286 | reading a row through an index array: element k is s[r[k]] |
| Sorting.ArgInsert | Sources/Matft/library/vDSP.swift:286 | inserting one index keeps every index below the row length |
| Sorting.ArgInsertPerm | Sources/Matft/library/vDSP.swift:286 | index insertion adds exactly that index to the multiset |
| Sorting.GatherCons | Sources/Matft/library/vDSP.swift:286 | gathering through a consed index array conses the gathered element |
| Sorting.GatherArgInsert | Sources/Matft/library/vDSP.swift:286 | gathering through an index insertion equals the value insertion of the gathered row |
| Sorting.ArgSortPrefix | Sources/Matft/library/vDSP.swift:286 | argsorting the first n elements gives n indices below the row length |
| Sorting.ArgSortPrefixPerm | Sources/Matft/library/vDSP.swift:286 | the indices for a prefix of n are a permutation of 0 ..< n |
| Sorting.ArgSortPrefixGather | Sources/Matft/library/vDSP.swift:286 | gathering the prefix through its indices gives the sorted prefix |
| Sorting.PermutationBelow | Sources/Matft/library/vDSP.swift:286 | a permutation of 0 ..< n has every index below n |
| Sorting.ArgSort | Sources/Matft/library/vDSP.swift:284-287 | vsorti gives as many indices as the row has elements, all in range |
| Sorting.ArgSortSpec | Sources/Matft/library/vDSP.swift:284-287 | vsorti's result is a permutation of 0 ..< count, and gathering the row through it gives the sorted row |
| Sorting.SortedHeads | Sources/Matft/library/vDSP.swift:273 | two sorted permutations of each other start with the same element |
| Sorting.SortedTails | Sources/Matft/library/vDSP.swift:273 | after dropping an equal head, the tails are again sorted permutations of each other |
| Sorting.SortedUnique | Sources/Matft/library/vDSP.swift:273 | two sorted rows with the same multiset are equal |
| Sorting.SortIsTheSortedPermutation | Sources/Matft/library/vDSP.swift:272-274 | any sorted permutation of a row is the row's sort, so vsort's result is determined whatever its tie order |
| Sorting.SortIdempotent | Sources/Matft/library/vDSP.swift:272-274 | sorting a sorted row changes nothing |
| Sorting.VSort | Sources/Matft/library/vDSP.swift:929 | one kernel call sorts a[lo ..< lo+count] in place and leaves the rest of the buffer alone |
| Sorting.SortRows | Sources/Matft/library/vDSP.swift:924-932 | after the loop, the buffer is the original with each of its storedSize / count rows replaced by that row sorted |
| Sorting.SortRowsSpec | Sources/Matft/library/vDSP.swift:924-932 | each row of the result is its original row sorted: sorted in order o and a permutation of the original row |
| Sorting.SortRowsTail | Sources/Matft/library/vDSP.swift:924-932 | elements after the last full row keep their values |
| Sorting.ZeroIndices | Sources/Matft/library/vDSP.swift:958 | the new index buffer is zero-filled and has the source's size |
| Sorting.VArgSort | Sources/Matft/library/vDSP.swift:964-974 | one row's vsorti indices are written to dst[lo ..< lo+count]; nothing else changes |
| Sorting.ArgsortRows | Sources/Matft/library/vDSP.swift:955-980 | the new buffer is zero-filled, with each row k holding vsorti's indices for source row k |
| Sorting.ArgsortRowsSpec | Sources/Matft/library/vDSP.swift:955-980 | each result row is a permutation of 0 ..< count through which the source row reads sorted |
| Sorting.ArgsortRowsTail | Sources/Matft/library/vDSP.swift:955-980 | slots after the last full row stay zero |
| Indexing.Sum | Sources/Matft/library/vDSP.swift:1131 | `indices.sum()`: over entries between 0 and 1 the sum lies between 0 and the number of entries |
| Indexing.CountTrue | Sources/Matft/library/vDSP.swift:1131 | the number of trues never exceeds the mask's length |
| Indexing.SumIsCountTrue | Sources/Matft/library/vDSP.swift:1131 | true_num, the sum of a 0/1 mask, is its number of trues |
| Indexing.BoolGetShape | Sources/Matft/library/vDSP.swift:1148-1150 | the result shape is true_num followed by the source dimensions the mask does not cover; rank 1 + ndim - mask ndim |
| Indexing.BoolGetSize | Sources/Matft/library/vDSP.swift:1127-1150 | the result size is true_num times the size of the uncovered dimensions, and never exceeds the source size |
| Indexing.BoolGetRows | Sources/Matft/library/vDSP.swift:1127-1130 | an [n, m] array masked by an [n] mask with k trues has shape [k, m] |
| Indexing.PositiveIndex | Sources/Matft/library/vDSP.swift:1251 | get_positive_index: a valid position; the index itself when non-negative, the index plus the size otherwise |
| Indexing.GatherOneBased | Sources/Matft/library/vDSP.swift:339-341 | vgathr gives one element per offset, read 1-based |
| Indexing.GatherDocExample | Sources/Matft/library/vDSP.swift:1237-1243 | gathering [0, 2, 3, 1] at 1-based offsets [1, 1, 3] gives [0, 0, 3] |
| Indexing.GatherOffsets | Sources/Matft/library/vDSP.swift:1251 | each offset is positive index times stride plus one, between 1 and the buffer length |
| Indexing.Fancy1dGetCol | Sources/Matft/library/vDSP.swift:1214-1257 | the result takes the index array's shape and strides, and element k is the source element at wrapped index idx[k] times the stride |
| Indexing.FancyContiguous | Sources/Matft/library/vDSP.swift:1245-1257 | on a contiguous source, a non-negative index picks itself and -1 picks the last element |
| DotProduct.RealDot | Sources/Matft/library/vDSP.swift:1334 | the vDSP_dotpr kernel, the sum of the products of two equal-length runs; a run dotted with itself is never negative |
| DotProduct.LRestShape | Sources/Matft/library/vDSP.swift:1315 | the left rest shape drops the last dimension |
| DotProduct.RRestShape | Sources/Matft/library/vDSP.swift:1316 | the right rest shape drops the second-to-last dimension |
| DotProduct.RestSize | Sources/Matft/library/vDSP.swift:1320-1321 | the rest size is the size of the rest shape, 1 for an empty one |
| DotProduct.DotprPlanAsWritten | Sources/Matft/library/vDSP.swift:1305-1322 | as written, the contraction length is l_shape[0] and the result shape is the two rest shapes concatenated |
| DotProduct.DotprAsWrittenOverreads | Sources/Matft/library/vDSP.swift:1305-1334 | for l = [3, 2] and r = [2, 3] the assert holds, but the loops read 9 elements from each 6-element buffer |
| DotProduct.DotprPlanCorrected | Sources/Matft/library/vDSP.swift:1308-1322 | corrected, the contraction length is l's last dimension |
| DotProduct.DotprPlansAgree | Sources/Matft/library/vDSP.swift:1305-1322 | when l's first and last dimensions agree (any square left matrix), the as-written plan is the corrected one, so DotprByVDSP then describes the code as written |
| DotProduct.LeftFits | Sources/Matft/library/vDSP.swift:1315-1320 | left rest size times l's last dimension is l's size |
| DotProduct.RightFits | Sources/Matft/library/vDSP.swift:1312-1321 | right rest size times r's second-to-last dimension is r's size |
| DotProduct.DotprPlanFits | Sources/Matft/library/vDSP.swift:1312-1334 | with the corrected length, every row the loops read lies in its buffer, and the result size is the product of the rest sizes |
| DotProduct.CellValueAt | Sources/Matft/library/vDSP.swift:1332-1336 | output cell i * r_rest_size + j is the dot product of left row i and transposed-right row j |
| DotProduct.DotprRow | Sources/Matft/library/vDSP.swift:1333-1335 | the inner loop fills the cells of left row i and nothing else |
| DotProduct.DotprByVDSP | Sources/Matft/library/vDSP.swift:1302-1344 | with the corrected contraction length (l's last dimension; the program as written uses l_shape[0], which agrees when DotprPlansAgree applies): the result has the concatenated rest shape, row-major strides and that size, and every cell is its row-times-column dot product |
| DotProduct.Column | Sources/Matft/library/vDSP.swift:1312 | column j of a k×n row-major matrix has k entries |
| DotProduct.TransposedRow | Sources/Matft/library/vDSP.swift:1312 | row j of swapaxes(-1, -2) made contiguous is column j of the original |
| DotProduct.MatrixProduct | Sources/Matft/library/vDSP.swift:1302-1344 | for 2-D operands [m, k]·[k, n], the result is [m, n] and cell (i, j) is row i of l dotted with column j of r |
| Fft.Pow2 | Sources/Matft/library/vDSP.swift:1362 | powers of two are positive |
| Fft.FloorLog2 | Sources/Matft/library/vDSP.swift:1361 | blocklog2N, the truncated log2 of n: 2^e <= n < 2^(e+1) |
| Fft.FloorLog2Pow2 | Sources/Matft/library/vDSP.swift:1361 | the truncated log2 of a power of two is its exponent |
| Fft.Pow2Strict | Sources/Matft/library/vDSP.swift:1362 | 2^a is strictly increasing in a |
| Fft.Pow2Even | Sources/Matft/library/vDSP.swift:1390 | a transform length of at least 2 is even, which the assert demands |
| Fft.ProcessNumberAsWritten | Sources/Matft/library/vDSP.swift:1361-1362 | process_number as written is p with p <= number < 2p: never more than the requested number |
| Fft.AsWrittenNeverPads | Sources/Matft/library/vDSP.swift:1361-1375 | as written, process_number never exceeds number and equals it only for powers of two, so the padding branch never runs |
| Fft.ProcessNumberThree | Sources/Matft/library/vDSP.swift:1360-1364 | requesting 3 points gives process_number 2 as written, failing the assert; the corrected length is 4 |
| Fft.ProcessNumberCorrectedSpec | Sources/Matft/library/vDSP.swift:1358-1364 | the corrected length is at least number, below twice it, the least covering power of two, and equal to the as-written value on powers of two |
| Fft.Requested | Sources/Matft/library/vDSP.swift:1359 | `number ?? blocksize_src`: the given number, or the axis extent when none is given |
| Fft.MoveLastTo | Sources/Matft/library/vDSP.swift:1418 | moving the last axis back keeps the rank |
| Fft.FftPlanAsWritten | Sources/Matft/library/vDSP.swift:1359-1398 | as written: the length is 2^⌊log2 number⌋ and the LAST dimension of the new buffer is replaced by N/2 + 1 |
| Fft.FftPlanCorrected | Sources/Matft/library/vDSP.swift:1359-1398 | corrected: the prepared rows hold exactly N samples and are read N apart, with N/2 + 1 outputs per row |
| Fft.FftPlansAgreeOnPowerOfTwo | Sources/Matft/library/vDSP.swift:1359-1398 | transforming the last axis at its own length, when that length is a power of two, the as-written layout is the corrected one, so FftZrByVDSP then describes the code as written |
| Fft.CorrectedPlanFits | Sources/Matft/library/vDSP.swift:1387-1406 | with the corrected layout every row read lies in the source and every row written lies in the new buffer; the result shape is the input shape with the axis resized |
| Fft.AsWrittenTruncationOverreads | Sources/Matft/library/vDSP.swift:1366-1406 | shape [2, 8], axis 1, number 4: rows are cut to 4 but read 8 apart, so the second row's read runs past the buffer |
| Fft.FloorLog2Four | Sources/Matft/library/vDSP.swift:1361-1362 | for number 4 both versions give process_number 4 |
| Fft.AsWrittenLeadingAxis | Sources/Matft/library/vDSP.swift:1388-1398 | shape [4, 2], axis 0: the new buffer's shape is [4, 3] rather than [2, 3], the 4 rows read do not fit, and the result shape is [3, 4] rather than [3, 2] |
| Fft.AsWrittenMissingPad | Sources/Matft/library/vDSP.swift:1375-1385 | shape [2] with number 8: no padding happens, and the kernel reads 4 split-complex elements (8 values) from a 2-sample row |
| Fft.KernelInput | Sources/Matft/library/vDSP.swift:1404-1406 | the kernel reads N/2 split-complex elements of row i |
| Fft.PackedRe | Sources/Matft/library/vDSP.swift:1404-1410 | the real part of a packed cell; in the last slot of each row it is the negated Nyquist coefficient that the kernel left in imag[0] |
| Fft.PackedIm | Sources/Matft/library/vDSP.swift:1404-1410 | the imaginary part of a packed cell; zero in the first (DC) and last (Nyquist) slot of each row |
| Fft.PackedRow | Sources/Matft/library/vDSP.swift:1404-1410 | row i of the packed spectrum holds the kernel outputs, except that imag[0] is cleared and the negated Nyquist coefficient sits in the last real slot; the DC and Nyquist bins are real |
| Fft.Halve | Sources/Matft/library/vDSP.swift:1421 | every element is halved |
| Fft.KernelOutputs | Sources/Matft/library/vDSP.swift:1406 | the kernel's outputs for one row land in that row's first N/2 slots; nothing else changes |
| Fft.PackRow | Sources/Matft/library/vDSP.swift:1404-1410 | one iteration leaves its row packed and every other cell unchanged |
| Fft.PackRows | Sources/Matft/library/vDSP.swift:1395-1414 | over the zero-initialised buffer, every cell of every row ends up packed |
| Fft.FftZrByVDSP | Sources/Matft/library/vDSP.swift:1352-1422 | with the corrected layout: an even length no smaller than requested; the result has the input shape with the axis resized to N/2 + 1, and every cell is the packed half-spectrum value halved |
| LinearAlgebra.StackedOffsets | Sources/Matft/core/function/linear_algebra.swift:311-325 | the loop visits size / (n·n) matrices, the k-th at offset k·n·n |
| LinearAlgebra.StackedBlocksDisjoint | Sources/Matft/core/function/linear_algebra.swift:318-324 | the stacked matrices lie inside the buffer and do not overlap |
| LinearAlgebra.Diagonal | Sources/Matft/core/function/linear_algebra.swift:222 | entry i is the U factor's diagonal element at i + i·n |
| LinearAlgebra.Swaps | Sources/Matft/core/function/linear_algebra.swift:222 | the number of swapped pivots among the first k is at most k |
| LinearAlgebra.DetStandardIsSignedProduct | Sources/Matft/core/function/linear_algebra.swift:216-223 | the standard rule gives the diagonal product, negated once per swapped pivot |
| LinearAlgebra.DetAsWrittenIsSignedProduct | Sources/Matft/core/function/linear_algebra.swift:220-223 | the loop as written gives the diagonal product, negated once per pivot that was NOT swapped |
| LinearAlgebra.DetAsWritten | Sources/Matft/core/function/linear_algebra.swift:220-223 | the sign loop as written over U's diagonal and the pivots; its properties are the lemmas below |
| LinearAlgebra.DetAsWrittenVsStandard | Sources/Matft/core/function/linear_algebra.swift:220-223 | as written, the result is the determinant negated n times: right for even n, negated for odd n |
| LinearAlgebra.DetAsWrittenParity | Sources/Matft/core/function/linear_algebra.swift:220-223 | over one matrix's LU factors, the loop as written gives (-1)^n times the determinant: the determinant for even n, its negation for odd n |
| LinearAlgebra.DetNoSwaps | Sources/Matft/core/function/linear_algebra.swift:216-223 | without pivoting, the determinant is the diagonal product |
| LinearAlgebra.Identity3Lu | Sources/Matft/core/function/linear_algebra.swift:214 | the LU factors of the 3×3 identity are well formed |
| LinearAlgebra.DetIdentity3 | Sources/Matft/core/function/linear_algebra.swift:220-223 | for the 3×3 identity the loop as written gives -1; the determinant is 1 |
| LinearAlgebra.BlockDetAsWritten | Sources/Matft/core/function/linear_algebra.swift:220-223 | the sign loop as written computes DetAsWritten, which is the true determinant negated n times |
| LinearAlgebra.BlockDet | Sources/Matft/core/function/linear_algebra.swift:220-223 | the corrected sign loop computes the determinant: the diagonal product negated once per swapped pivot |
| LinearAlgebra.DetShape | Sources/Matft/core/function/linear_algebra.swift:230-250 | the result rank is ndim - 2, or 1 when that is 0 |
| LinearAlgebra.DetShapeSize | Sources/Matft/core/function/linear_algebra.swift:203-250 | the result shape holds retSize = size / (n·n) elements, and the input is exactly that many n×n matrices; for a 2-D input the strides are [1] |
| LinearAlgebra.DetResultsSpec | Sources/Matft/core/function/linear_algebra.swift:210-228 | on success there is one result per matrix, and result b is the determinant of matrix b's LU factors |
| LinearAlgebra.DetResults | Sources/Matft/core/function/linear_algebra.swift:210-228 | the corrected driver's outcome over the first k matrices; on success k matrices give k results |
| LinearAlgebra.DetResultsAsWritten | Sources/Matft/core/function/linear_algebra.swift:210-228 | the driver's outcome with the sign loop as written; on success k matrices give k results |
| LinearAlgebra.DetResultsAsWrittenSigned | Sources/Matft/core/function/linear_algebra.swift:210-228 | the program as written fails exactly when the corrected one does, with the same error; on success each value it returns is (-1)^n times the determinant, so the two agree for even n and every value is negated for odd n |
| LinearAlgebra.DetResultsSucceed | Sources/Matft/core/function/linear_algebra.swift:210-228 | when every factorisation succeeds, det succeeds |
| LinearAlgebra.DetResultsNext | Sources/Matft/core/function/linear_algebra.swift:212-227 | one more matrix either throws the factorisation's error or appends its determinant |
| LinearAlgebra.DetFailurePersists | Sources/Matft/core/function/linear_algebra.swift:211-214 | once a factorisation throws, later matrices do not change the outcome |
| LinearAlgebra.DetBlock | Sources/Matft/core/function/linear_algebra.swift:212-227 | one iteration either reports the error det will throw or writes the determinant at dstoffset k |
| LinearAlgebra.DetByLapack | Sources/Matft/core/function/linear_algebra.swift:198-253 | with the corrected sign rule (the program as written returns these values times (-1)^n, by DetResultsAsWrittenSigned): det throws the first factorisation error; otherwise it returns one determinant per stacked matrix, with the DetShape shape and row-major strides |
| LinearAlgebra.InvResults | Sources/Matft/core/function/linear_algebra.swift:121-131 | on success the inverses fill k·n·n elements |
| LinearAlgebra.InvResultsNext | Sources/Matft/core/function/linear_algebra.swift:122-130 | one more matrix throws the LU error, or throws the inverse's error, or appends its inverse |
| LinearAlgebra.InvFailurePersists | Sources/Matft/core/function/linear_algebra.swift:121-127 | once a matrix throws, later matrices do not change the outcome |
| LinearAlgebra.InvResultsSpec | Sources/Matft/core/function/linear_algebra.swift:121-131 | on success, block b of the result is the inverse computed from matrix b's LU factors |
| LinearAlgebra.InvResultsSucceed | Sources/Matft/core/function/linear_algebra.swift:121-131 | when every factorisation and inversion succeeds, inv succeeds |
| LinearAlgebra.MoveAssign | Sources/Matft/core/function/linear_algebra.swift:130 | moveAssign writes the block at the offset and leaves the rest of the buffer alone |
| LinearAlgebra.InvBlock | Sources/Matft/core/function/linear_algebra.swift:122-130 | one iteration either reports the error inv will throw or writes the inverse at offset k·n·n |
| LinearAlgebra.InvByLapack | Sources/Matft/core/function/linear_algebra.swift:110-150 | inv throws the first error; otherwise it returns the stacked inverses with the input's shape and row-major strides |
| LinearAlgebra.Priority | Sources/Matft/core/function/linear_algebra.swift:67 | the result type is Double exactly when either operand is Double |
| LinearAlgebra.SolvePlan | Sources/Matft/core/function/linear_algebra.swift:47-76 | when solve proceeds, coef is 2-D, the system order is coef's first dimension and the result has b's shape |
| LinearAlgebra.SolvePlanSucceeds | Sources/Matft/core/function/linear_algebra.swift:48-65 | solve proceeds exactly when coef is 2-D and square and b is 1-D or 2-D with as many rows; otherwise it stops at the first failing precondition, in source order |
| LinearAlgebra.SolveColumnCount | Sources/Matft/core/function/linear_algebra.swift:56-65 | dstColNum is a dimension of b: b's whole size for a vector or a one-column b, and b's column count otherwise |
| LinearAlgebra.SolveResultType | Sources/Matft/core/function/linear_algebra.swift:67-90 | the result type is Double when either operand is Double, whatever the operand order; b goes column-major exactly in the Float branch |
| LinearAlgebra.RhsBuffer | Sources/Matft/core/function/linear_algebra.swift:71-90 | the right-hand side passed to gesv has b's length, and is b itself in the Double branch |
| LinearAlgebra.ColumnMajorAt | Sources/Matft/core/function/linear_algebra.swift:71 | in the column-major buffer, entry (i, j) of b sits at j·rows + i |
| LinearAlgebra.ColumnMajorCell | Sources/Matft/core/function/linear_algebra.swift:71 | position j·rows + i splits back into column j and row i |
| Blocks.Transposed | Sources/Matft/library/vDSP.swift:1312 | the contiguous `swapaxes(-1, -2)` of a row-major [k, n] buffer, also its column-major layout: n·k elements |
| Blocks.TransposedCell | Sources/Matft/core/function/linear_algebra.swift:70-71 | cell (j, i) of the transpose is cell (i, j) of the original, as `to_column_major` lays a matrix out |
| LinearAlgebra.TransposedAt | Sources/Matft/core/function/linear_algebra.swift:70-71 | cell c of the transposed buffer is the source cell at (c mod k)·n + c / k |
| LinearAlgebra.RhsLayoutsAgreeOnVectors | Sources/Matft/core/function/linear_algebra.swift:71-90 | for a 1-D or one-column b, both branches pass the same buffer |
| LinearAlgebra.RhsLayoutsDifferOnMatrices | Sources/Matft/core/function/linear_algebra.swift:71-90 | for a 2×2 b = [1, 2, 3, 4], the Float branch passes [1, 3, 2, 4] and the Double branch passes b unchanged |

## Left out

- Accelerate, vForce and LAPACK kernels are not re-implemented where only the layout around them matters:
  - `stats`/`stats_index` reductions are the parameters `reduce`/`pick`;
  - the zrop FFT is `zrRe`/`zrIm`;
  - getrf/getri are `lu`/`inv`.
- Floating point is `real`. The Float/Double distinction is kept only as the stored-type tag that `solve` uses. Signed zero, NaN and rounding are not modelled.
- `log2` and `powf` in `fft_zr_by_vDSP` are taken as exact on integers.
- Pointers, `withUnsafeMutableStartPointer`, `MfData` allocation and object lifetimes are not modelled.
  - Buffers are `seq`/`array`.
  - A freshly allocated `MfData` is taken as zero-filled.
- Swift `precondition`/`assert` traps in the drivers are `requires`:
  - `count > 0` for the division by the sorted axis length;
  - a requested FFT length of at least 2;
  - square last two dimensions for `det`/`inv`;
  - `n > 0` (`m.shape[|m.shape| - 1] > 0`) in `LinearAlgebra.DetByLapack`, `InvByLapack`, `StackedOffsets`, `DetBlock` and `InvBlock`, for the division by n·n in the matrix count (linear_algebra.swift:203 and :314);
  - `0 <= PositiveIndex(idx[k], size) * stride` in `Indexing.Fancy1dGetCol` and `GatherOffsets`, for the `UInt(...)` conversion of the offset at vDSP.swift:1251, which traps on a negative value. The upper half of the same requires (`< |m.data|`) is not a trap: it says vgathr reads inside the buffer, which the source does not check.
  - `solve`'s traps are an explicit `SolveTrap` result instead.
- Complex (split-complex) inputs are not modelled: the complex branches of `boolget_by_vDSP` and `fancy1dgetcol_by_vDSP`, and complex `stats`.
- Helpers defined outside these two files are not part of this model, and are assumed with their usual meaning:
  - `moveaxis`, `to_contiguous`, `check_contiguous`, `swapaxes` (taken as the row-major transpose `Blocks.Transposed`);
  - `get_positive_axis`, `get_positive_index`, `expand_dims`, `shape2strides`, `FlattenIndSequence`;
  - `StoredType.priority`, `to_row_major`, `to_column_major`, `astype`, `bool_broadcast_to`.
- The drivers start from the buffer after that preparation:
  - `sort`/`argsort` from the row-contiguous buffer with the axis moved last, without the final `moveaxis`;
  - `fft_zr` from the prepared rows.
- `boolget_by_vDSP`'s compress loop over `OptOffsetParamsSequence` is not modelled, only its result shape and `true_num`.
  - The offset sequence is defined elsewhere.
  - Broadcasting the mask is `bool_broadcast_to`, also defined elsewhere.
- `argsort_by_vDSP` stores its `UInt` indices as `Float` values. The model keeps them as `nat`.
- Sorting.SortRows and Sorting.ArgsortRows: require `storedSize / count * count` to fit the buffer they walk. The loops at vDSP.swift:928 and :964 run `mfarray.storedSize / count` times, and that storedSize is the original array's, while the buffer walked is the contiguous copy made at :922 and :952, which holds `mfarray.size` elements. The model assumes the original's rows fit the copy; the source does not check this. How `storedSize` relates to `size` for a view is defined in `MfArray`, which is not part of this model. When storedSize is smaller, `SortRowsTail`/`ArgsortRowsTail` state what happens to the elements past the last full row.
- Sorting.Sort: vDSP's tie order is not modelled. `Sorting.SortIsTheSortedPermutation` shows the sorted result is the same for any tie order, but the argsort indices of equal elements are the insertion sort's.
- Reduction.StatsIndexByVDSP: does not require `pick` to return a position inside its lane, because a quantified requires on the function parameter made the method too costly to verify. Its contract still says each output is `pick` of the right lane.
- Fft.FftZrByVDSP: starts from a source already cut or zero-padded to N samples per row, with the transformed axis last.
  - The slicing and padding assignments (lines 1366-1385) are captured only by the plan's `srcExtent`.
  - Splitting into real and imaginary planes (`to_complex`) is taken as given.
- Fft.KernelInput: the kernel is given the first N/2 values of each row's real plane, with an imaginary plane of zeros. That is what `to_complex()` (vDSP.swift:1388) followed by a zrop over N/2 split-complex elements reads. The model does not claim that the result is the discrete Fourier transform of the row: `zrRe`/`zrIm` are arbitrary, and only the packing around them is stated.
  - `isForward` is folded into the kernel parameters.
- LinearAlgebra.DetByLapack and LinearAlgebra.InvByLapack: start from the row-major buffer that `to_row_major` gives (line 317), although the helper is named `_withNNStackedColumnMajorPtr`. Element values of the LU and inverse kernels are not modelled.
- `solve_by_lapack`, and thus the values `solve` returns, are not modelled. The model stops at the preconditions, `dstColNum`, the result type and the right-hand-side layout.
  - The Double branch passes `b.astype(.Double)` (line 90) where the Float branch passes `to_column_major(b)` (line 76).
  - `RhsLayoutsDifferOnMatrices` shows the two layouts differ for a 2-D b with more than one column.
  - This is not listed as a finding, because `astype`'s layout is defined elsewhere.
- Image conversion (`mfarray2cgimage_by_vDSP`, `cgimage2mfarray_by_vDSP`), the arithmetic and conversion drivers, and the commented-out `arange_by_vDSP` are outside the modelled core.

## Findings

| source | as written | input that shows it | evidently intended | confidence | as-written member | corrected member |
|---|---|---|---|---|---|---|
| Sources/Matft/core/function/linear_algebra.swift:222 | negates the diagonal term when `IPIV[i] == i+1`, that is, when row i was NOT swapped | the 3×3 identity (no swaps) gives -1 | negate once per swapped pivot (`IPIV[i] != i+1`), giving 1 | not executed | LinearAlgebra.DetIdentity3 | LinearAlgebra.BlockDet |
| Sources/Matft/library/vDSP.swift:1305-1308 | the contraction length is `l_shape[0]`, asserted equal to `r_shape[1]` | l of shape [3, 2] and r of shape [2, 3]: the loops read 9 elements from each 6-element buffer | the last dimension of l, matched against r's second-to-last | not executed | DotProduct.DotprAsWrittenOverreads | DotProduct.DotprByVDSP |
| Sources/Matft/library/vDSP.swift:1361-1364 | `process_number` is 2 to the TRUNCATED log2 of `number` | number 3 gives process_number 2 < 3, so the assert fails | the least power of two not below `number` | not executed | Fft.ProcessNumberThree | Fft.ProcessNumberCorrectedSpec |
| Sources/Matft/library/vDSP.swift:1404 | after truncating to `number` samples, rows are still read `blocksize_src` apart | shape [2, 8], axis 1, number 4: the second row is read at 8 of a 2×4 prepared source | rows read `process_number` apart | not executed | Fft.AsWrittenTruncationOverreads | Fft.CorrectedPlanFits |
| Sources/Matft/library/vDSP.swift:1392-1398 | the LAST dimension of `mfarray.shape` is resized and gives `loopnum`, whatever the axis | shape [4, 2], axis 0: the new buffer is [4, 3], its 4 rows do not fit the 2-row prepared source, and the result is [3, 4] | resize the transformed axis (moved last), giving result shape [3, 2] | not executed | Fft.AsWrittenLeadingAxis | Fft.FftPlanCorrected |
| Sources/Matft/library/vDSP.swift:1375 | zero padding runs only when `process_number > number`, comparing against the requested length rather than the axis length | shape [2] with number 8: no padding, and the kernel reads 4 split-complex elements (8 values) from a 2-sample row | pad whenever the axis is shorter than the transform length | not executed | Fft.AsWrittenMissingPad | Fft.FftZrByVDSP |
