# Casorati transform, coil-combination scaling and TensorFlow shape bridge of BART, in Dafny

This project models three pieces of the BART reconstruction toolbox and proves properties of them.

- **The Casorati sliding-block transform** (`num/casorati.c`). An N-dimensional array of shape `dim` with
  strides `str` is viewed as a 2N-dimensional array. The first N axes count the block positions,
  `dim[i] - dimk[i] + 1` along axis i. The last N axes are the offsets inside a block, `dimk[i]`. Both halves
  reuse the source strides, so view element `(p, q)` is source element `p + q`. `casorati_matrix` copies the
  view into a dense `odim[0] x odim[1]` matrix, one row per block position and one column per block offset.
  `casorati_matrixH` adds a matrix back into the source on top of what the source already holds. The
  meaning of the library kernels it calls (`md_calc_size`, `md_calc_strides`, `md_copy2`, `md_zadd2`) is
  defined at the level of indices in the modules `Multind` and `Flpmath`. The matrix and its adjoint are
  proved adjoint with respect to the complex inner product.
- **Coil combination and intensity scaling** (`sense/optcom.c`). This covers:
  - the image, single-image and k-space shapes derived from the full 16-axis shape with `md_select_dims`;
  - the per-pixel division loop of `optimal_combine`;
  - the magnitude comparator and the sort;
  - the median / 90th-percentile / maximum rule of `estimate_scaling_internal`.
- **The TensorFlow shape bridge** (`nn/tf_wrapper.c`). A graph is a map from operation names to their
  external (row-major) shapes. The model covers:
  - the reversal between native and external axis order, where the native singleton axis 0 becomes the
    size-2 real/imaginary axis (`tensor_allocate`, `process_arg`);
  - shape compatibility up to trailing ones (`cmp_arg`);
  - `product`;
  - the discovery of `input_k` / `output_k` operations;
  - the gradient table stored at slot `i + II*o`;
  - the padding of all ranks to a common width.

Modules: `Results` (the `Result` datatype), `Multind`, `Flpmath`, `Casorati`, `Optcom`, `TfWrapper`.

Conventions:
- A shape is a `seq` of extents with axis 0 fastest, as in BART's dense layout.
- Strides count elements rather than bytes.
- Complex samples are pairs of exact reals.
- The C `assert`s and `error` calls become error results: `ok == false` in the Casorati operations, and
  `Fail(...)` values elsewhere. The model records which check fails; it does not abort.

## Model

| member | source | states |
|---|---|---|
| Casorati.CalcCasoratiGeom | src/num/casorati.c:18-28 | for every axis i < N: dimc[i] = dim[i]-dimk[i]+1, dimc[i+N] = dimk[i], str2[i] = str2[i+N] = str[i]; the arrays equal the view shape and the doubled strides |
| Casorati.ViewExtentsNonNegative | src/num/casorati.c:22-23 | every extent of the 2N view is non-negative exactly when dimk[i] <= dim[i] + 1 on every axis |
| Casorati.CasoratiAddressing | src/num/casorati.c:25-26 | under the doubled strides, view element (p, q) sits at the source offset of p + q, for any strides |
| Casorati.CasoratiInBounds | src/num/casorati.c:22-23 | a block position p and an offset q inside the block name an in-bounds source element p + q; every extent of a non-empty view satisfies 1 <= dimk[i] <= dim[i] |
| Casorati.SplitView | src/num/casorati.c:22-23 | a view index splits into an in-range block position and an in-range block offset |
| Casorati.ViewElement | src/num/casorati.c:25-26 | view index (p, q) names the in-bounds source element p + q, at the same offset |
| Casorati.CasoratiViewValid | src/num/casorati.c:43 | every element of the 2N view addresses an element of the source buffer whenever the source layout is valid |
| Casorati.CasoratiSize | src/num/casorati.c:39-40 | the view holds odim[0] * odim[1] elements: product of block positions times product of block extents |
| Casorati.CasoratiMatrix | src/num/casorati.c:31-44 | succeeds exactly when odim matches the view, and leaves out untouched otherwise; on success every cell of the dense output is the strided gather of the view; the source is not modified |
| Casorati.CasoratiMatrixCell | src/num/casorati.c:42-43 | the cell at row Lin(positions, p) and column Lin(dimk, q) lies inside the matrix and holds source element p + q |
| Casorati.CasoratiCellSource | src/num/casorati.c:42-43 | every cell c of the matrix splits into an in-range block position p and block offset q, and holds source element p + q |
| Casorati.CasoratiMatrixH | src/num/casorati.c:48-61 | succeeds exactly when odim matches the view, and leaves dst untouched otherwise; on success dst is its old value plus the strided accumulation of the matrix; the matrix is not modified |
| Casorati.CasoratiMatrixHAt | src/num/casorati.c:59-60 | after casorati_matrixH, each source element is its old value plus the sum of every matrix cell whose view offset is that element |
| Casorati.CasoratiAdjoint | src/num/casorati.c:31-61 | the adjoint law <casorati_matrix(x), y> = <x, casorati_matrixH(0, y)> |
| Multind.Prod | src/num/casorati.c:39-40 | md_calc_size of non-negative extents is non-negative |
| Multind.ProdAppend | src/num/casorati.c:39-40 | md_calc_size of a concatenated shape is the product of the two sizes |
| Multind.ProdUpdate | src/sense/optcom.c:90-91 | replacing one extent by v scales md_calc_size by v over the old extent |
| Multind.CalcStrides | src/num/casorati.c:42 | md_calc_strides gives one stride per axis |
| Multind.CalcStridesAt | src/num/casorati.c:42 | stride i is the element size times the product of the extents of the faster axes 0..i-1 |
| Multind.LinBound | src/num/casorati.c:42 | the dense position of an in-shape index is below the size |
| Multind.UnlinLin | src/num/casorati.c:42 | decoding the dense position of an in-shape index gives the index back |
| Multind.LinUnlin | src/num/casorati.c:42 | encoding the index decoded from a position below the size gives the position back |
| Multind.LinAppend | src/num/casorati.c:42 | the dense position in a concatenated shape is the position in the first part plus its size times the position in the second |
| Multind.OffAppend | src/num/casorati.c:25-26 | offsets under concatenated strides add up |
| Multind.OffAdd | src/num/casorati.c:25-26 | offsets are linear in the multi-index |
| Multind.CalcStridesOff | src/num/casorati.c:42 | under the strides md_calc_strides computes, the offset of an index is the element size times its dense position |
| Multind.DenseLayoutValid | src/num/casorati.c:42 | the dense layout of a shape addresses only elements of a buffer of that size |
| Multind.ViewOffsetsIn | src/num/casorati.c:43 | a valid layout keeps every cell offset of the view inside the buffer |
| Multind.StridedGatherAt | src/num/casorati.c:42-43 | md_copy2 into a dense destination puts view element w at the dense offset of w |
| Multind.StridedCopy | src/num/casorati.c:43 | the copy loop leaves exactly the strided gather of src in dst |
| Flpmath.StridedAdd | src/num/casorati.c:60 | md_zadd2 with the destination as first source leaves old dst plus the accumulation of y over the view |
| Flpmath.AccumulateAt | src/num/casorati.c:60 | after accumulating, each element is its old value plus the independent sum of the cells addressed to it |
| Flpmath.DotUpdate | src/num/casorati.c:60 | adding c to one element adds x[j] * conj(c) to the inner product |
| Flpmath.GatherAccumulateAdjoint | src/num/casorati.c:31-61 | gathering through a view and accumulating through the same view are adjoint for every valid layout |
| Multind.SelectDims | src/sense/optcom.c:41-42 | md_select_dims keeps the extent of every axis whose flag is set and puts 1 on every other axis |
| Optcom.SelectAllBut | src/sense/optcom.c:41-42 | md_select_dims with a mask that clears exactly the axes in a set gives 1 on those axes and the old extent elsewhere |
| Optcom.NotCoilMapsFlag | src/sense/optcom.c:41 | ~(COIL_FLAG or MAPS_FLAG) selects every axis but 3 and 4 |
| Optcom.NotCoilFlag | src/sense/optcom.c:42 | ~COIL_FLAG selects every axis but 3 |
| Optcom.NotMapsFlag | src/sense/optcom.c:160 | ~MAPS_FLAG selects every axis but 4 |
| Optcom.DimsImg | src/sense/optcom.c:42 | dims_img is dims with the coil axis set to 1 |
| Optcom.DimsOne | src/sense/optcom.c:41 | dims_one is dims with the coil and maps axes set to 1 |
| Optcom.DimsKsp | src/sense/optcom.c:160 | dims_ksp is dims with the maps axis set to 1 |
| Optcom.DerivedShapesAgree | src/sense/optcom.c:158-160 | dims_one is dims_img with maps collapsed and dims_ksp with coils collapsed; every other axis keeps its extent in all three |
| Optcom.ImageSize | src/sense/optcom.c:90-91 | the full size is the image size times the coil count |
| Optcom.ImsizeIsImageSize | src/sense/optcom.c:91 | imsize = size / dims[COIL_DIM] is exactly the number of samples of one combined image |
| Optcom.NormalizeCombined | src/sense/optcom.c:51-53 | each of the imsize samples is divided by the squared magnitude of norm[i] plus alpha; the rest of the buffer is untouched |
| Optcom.NormalizeUndo | src/sense/optcom.c:52-53 | multiplying the normalised samples by their weights gives the combined image back |
| Optcom.CompareMagnAsWritten | src/sense/optcom.c:72-75 | the comparator as written returns only -1 or +1: -1 exactly when the first magnitude is smaller, +1 otherwise, including equal magnitudes |
| Optcom.CompareMagnAsWrittenInconsistent | src/sense/optcom.c:72-75 | two samples of equal magnitude each compare greater than the other |
| Optcom.CompareMagn | src/sense/optcom.c:72-75 | the corrected comparator: -1, 0 or +1 exactly when the first magnitude is smaller, equal or larger |
| Optcom.CompareMagnOrder | src/sense/optcom.c:72-75 | the corrected comparator is antisymmetric and transitive, and agrees with the written one on "smaller" |
| Optcom.SortByMagnitude | src/sense/optcom.c:110 | after the sort the magnitudes are ascending and a permutation of the input |
| Optcom.InsertAt | src/sense/optcom.c:110 | one insertion step makes a[..i+1] sorted and a permutation of its old contents, leaves a[i+1..] unchanged, and so keeps the multiset of the whole array |
| Optcom.P90Index | src/sense/optcom.c:113 | the 90th-percentile position r is trunc(0.9 imsize): 10r <= 9 imsize < 10r + 10 |
| Optcom.PickIndices | src/sense/optcom.c:112-114 | for imsize >= 1: 0 <= imsize/2 <= trunc(0.9 imsize) <= imsize-1 < imsize |
| Optcom.SelectScale | src/sense/optcom.c:112-119 | median, p90 and max are the sorted elements at imsize/2, trunc(0.9 imsize) and imsize-1, divided by the rescale factor; compat gives the median; otherwise p90 when max - p90 < 2(p90 - median) and max otherwise; on sorted input median <= p90 <= max and scale >= p90 |
| Optcom.EstimateScalingInternal | src/sense/optcom.c:80-126 | fails exactly when dims[MAPS_DIM] != 1; otherwise the rule is applied to a sorted permutation of the imsize combined magnitudes, with median <= p90 <= max and the compat override |
| TfWrapper.Product | src/nn/tf_wrapper.c:48-56 | the accumulator loop returns md_calc_size of the extents (1 for none) |
| TfWrapper.ProdReverse | src/nn/tf_wrapper.c:335-336 | reversing the axes does not change the element count |
| TfWrapper.ExternalNative | src/nn/tf_wrapper.c:547-553 | process_arg's native shape, put back into external order by tensor_allocate, gives the external shape |
| TfWrapper.NativeExternal | src/nn/tf_wrapper.c:335-339 | tensor_allocate's external shape, read back by process_arg, gives the native shape |
| TfWrapper.ExternalSize | src/nn/tf_wrapper.c:342 | the external tensor holds two floats per native complex sample |
| TfWrapper.TensorAllocate | src/nn/tf_wrapper.c:330-348 | fails for rank 0 and for a native axis 0 other than 1; otherwise the dims are reversed with the last set to 2, and the byte count is 2 * product * FL_SIZE |
| TfWrapper.ProcessArg | src/nn/tf_wrapper.c:513-564 | fails for a missing operation, rank 0 or a last external axis other than 2; otherwise returns the reversed shape with axis 0 set to 1 |
| TfWrapper.CmpArg | src/nn/tf_wrapper.c:566-581 | true exactly when the shapes agree on the common prefix and every extra axis of the longer one is 1 |
| TfWrapper.CompatibleIffPadded | src/nn/tf_wrapper.c:566-581 | cmp_arg holds exactly when the shapes are equal once both are padded with ones to the larger rank |
| TfWrapper.CompatibleEquivalence | src/nn/tf_wrapper.c:566-581 | cmp_arg is reflexive, symmetric and transitive |
| TfWrapper.PadCompatible | src/nn/tf_wrapper.c:755-761 | the padded shape passes cmp_arg against the original shape and keeps it as a prefix |
| TfWrapper.CountSlots | src/nn/tf_wrapper.c:625-631 | the do/while search returns the least k whose input_k (or output_k) is missing |
| TfWrapper.SlotCountUnique | src/nn/tf_wrapper.c:625-631 | only one count has that property |
| TfWrapper.GradName | src/nn/tf_wrapper.c:727-730 | the gradient operation is grad_i exactly when OO is 1 and grad_i exists, and grad_i_o otherwise |
| TfWrapper.GradSlotLayout | src/nn/tf_wrapper.c:737 | slot i + II*o lies in [0, II*OO) and gives back i by remainder and o by quotient |
| TfWrapper.GradSlotInjective | src/nn/tf_wrapper.c:737 | distinct (input, output) pairs get distinct slots |
| TfWrapper.MaxRankIsMax | src/nn/tf_wrapper.c:651 | ON (and IN) is at least 1, at least every rank, and either 1 or one of the ranks |
| TfWrapper.MaxRankSnoc | src/nn/tf_wrapper.c:651 | one more shape raises the running maximum to its rank if that is larger |
| TfWrapper.ProcessOutput | src/nn/tf_wrapper.c:644-675 | succeeds exactly when output_o and grad_ys_o are valid, of equal rank and pass cmp_arg; returns the native shape of output_o |
| TfWrapper.OutputsOkAll | src/nn/tf_wrapper.c:644-675 | the output loop's success condition holds exactly when every output is well formed |
| TfWrapper.OutputsAt | src/nn/tf_wrapper.c:655 | entry o of the collected shapes is the native shape of output_o |
| TfWrapper.ProcessOutputs | src/nn/tf_wrapper.c:636-675 | succeeds exactly when every output is well formed; returns their native shapes in order and ON |
| TfWrapper.GradsOkAll | src/nn/tf_wrapper.c:724-740 | the gradient loop's success condition holds exactly when every gradient of the input is well formed |
| TfWrapper.ProcessGrads | src/nn/tf_wrapper.c:724-740 | succeeds exactly when every gradient of input i exists and passes cmp_arg; grad_i when OO is 1 and it exists, grad_i_o otherwise, is recorded for every o; other inputs' entries are unchanged |
| TfWrapper.ProcessInput | src/nn/tf_wrapper.c:705-740 | succeeds exactly when input_i and its gradients are well formed; returns its native shape and the tensor allocated for it, and fills its gradient entries |
| TfWrapper.InputsOkAll | src/nn/tf_wrapper.c:700-742 | the input loop's success condition holds exactly when every input is well formed |
| TfWrapper.InputsAt | src/nn/tf_wrapper.c:710-713 | entry j of the collected shapes and tensors belongs to input_j |
| TfWrapper.FlatSlotsFilled | src/nn/tf_wrapper.c:737 | flattening the filled gradient table puts the gradient of (i, o) at slot i + II*o |
| TfWrapper.ProcessInputs | src/nn/tf_wrapper.c:690-742 | succeeds exactly when every input is well formed; returns their native shapes, tensors and IN, and the gradient of every pair at slot i + II*o |
| TfWrapper.TfSharedCreate | src/nn/tf_wrapper.c:618-748 | on success II and OO are the discovered counts, every input and output is well formed, the output and input shapes are the native shapes of output_o and input_i in order, the tensors are those allocated for the inputs, ON and IN are the largest ranks (at least 1), and slot i + II*o holds the gradient operation of (i, o); on failure the graph is not well formed for the discovered counts |
| TfWrapper.PadShapes | src/nn/tf_wrapper.c:752-761 | nl_odims / nl_idims hold the true extent below each rank and 1 beyond it, up to the common width |

## Left out

- The TensorFlow session is not modelled: graph loading, session creation and options, `restore_session`,
  the `TF_SessionRun` bodies of `tf_forward` and `tf_adj`, `tf_del`, and the reference counting of the shared
  graph. The same goes for the `nlop_generic_create` / `nlop_reshape_*` wiring and `tf_der`, which only raises
  an error. These are calls into code that is not part of this model.
- `nlop_tf_create` (graph file loading) is not modelled.
- The `TF_AUTOGRAD` branch is not modelled; the model follows the default build, which looks gradients up by name.
- An unknown rank (`-1` from TensorFlow) is not modelled: ranks are lengths of sequences.
- TfWrapper.Product: does not model the narrowing of the 64-bit result to `int` on return.
- TfWrapper.ProcessArg: models only the shape part; the TensorFlow status checks after the rank and shape queries are foreign calls.
- OpenMP and CUDA device selection are not modelled (concurrency and hardware).
- The FFT and SENSE operators are not part of this model: `sense_init`, `sense_adjoint`, `sense_forward`,
  `md_rss`, `extract_calib2`, `rss_combine`, `estimate_pattern` and `data_consistency`. Their results enter
  the model as inputs: the combined magnitudes, the norms and the calibration shape.
- `fake_kspace` and `replace_kspace` are modelled only through their shape derivations (DimsImg, DimsOne, DimsKsp).
- Floating point is not modelled: values are exact reals, and `cabsf`, `powf` and the `sqrtf` rescale factor are
  not computed (the rescale factor is a positive real input).
- Optcom.P90Index: models `trunc(imsize * 0.9)` as `imsize * 9 / 10` in integer arithmetic, without double rounding.
- Optcom.EstimateScalingInternal: requires imsize >= 1; with imsize = 0 the source reads `tmp1[-1]`.
- Optcom.EstimateScalingInternal: takes the number of combined samples from the formula at `src/sense/optcom.c:91`, `md_calc_size(small_dims) / dims[COIL_DIM]`; that it equals the size of one combined image (Optcom.ImsizeIsImageSize) depends on `extract_calib2` keeping the coil extent, which is not part of this model.
- Optcom.NormalizeCombined: requires the weight of every pixel to be non-zero; the source divides by zero otherwise.
- Optcom.NormalizeCombined: the `unsigned int` loop counter is modelled as an unbounded natural.
- Optcom.SortByMagnitude: `qsort` is modelled by an insertion sort with the corrected comparator. Only the
  result matters: the magnitudes end up ascending and permuted. The sort works on magnitudes, not on complex samples.
- Optcom.NotCoilFlag, Optcom.NotMapsFlag, Optcom.NotCoilMapsFlag: `md_select_dims` is proved only for the three
  constant masks the source uses, not for an arbitrary flag word.
- `src/sdot.c` and `src/conj.c` are command-line wrappers around `md_zscalar` and `md_zconj` and are not modelled.
  The inner product of the adjoint law is defined here (`Flpmath.Dot`).
- Strides are in elements, not bytes: the element size `CFL_SIZE` is factored out of every stride.
- Casorati.CasoratiMatrix and Casorati.CasoratiMatrixH require `dimk[i] <= dim[i] + 1` so that every view extent is
  non-negative. The source does not reject a larger block: `dimc` then has a negative extent.
- The block shape `dimk[i] = dim[i] + 1` is accepted, as in the code; it gives an empty view and an empty matrix.
- The flat `grad_ops` array is built as an II x OO table. `TfWrapper.FlatSlots` then flattens it to the slot
  layout `i + II*o`.

## Findings

| source | as written | input that shows it | evidently intended | confidence | as-written member | corrected member |
|---|---|---|---|---|---|---|
| src/sense/optcom.c:72-75 | `copysignf(1., cabsf(a) - cabsf(b))` gives +1 when the magnitudes are equal, so the comparator says a > b and b > a at once | any two samples of equal magnitude, e.g. two zeros | return 0 for equal magnitudes, so that qsort gets a consistent ordering | low, not executed | Optcom.CompareMagnAsWrittenInconsistent | Optcom.CompareMagnOrder |
