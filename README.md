# Coded-mask sky reconstruction and IROS, modelled in Dafny

This project models the computational core of a coded-mask X-ray imaging
toolkit. It covers four parts.

- **Balanced cross-correlation imaging** (`skyrec.py`). A sky is encoded onto
  the detector as the valid-mode correlation of the mask with the sky, times
  the detector bulk response. The detector is decoded by a full-mode
  correlation with the decoder pattern. A DC offset
  `balancing * sum(detector) / sum(bulk)` is then removed. A variance map is
  built, and its non-positive entries become `+inf`. The maps are normalised
  by `mask.size / (mask.sum * bulk.sum)`. The signal-to-noise map
  `nan_to_num(sky / sqrt(var))` is computed.
- **IROS** (iterative removal of sources, `iros.py`). Each round
  reconstructs the sky and picks the row-major first maximum. It records it
  as a source when its SNR exceeds the threshold and it is new. It subtracts
  the calibrated shadowgram of that source from the detector and clamps the
  result at 0. It yields the round's maps. It returns when no SNR peak is
  left, and stops after `max_iterations` rounds. `iros_skyrec` rebuilds a
  sky image from the recorded sources.
- **The older IROS** (`iros_depr.py`). The same loop with a different
  selection rule: any SNR peak anywhere triggers a record, and counts are
  divided by the open fraction. There is no calibration, no clamping, and a
  fixed-length per-iteration peak list.
- **URA and MURA mask patterns** (`torchmaskpattern.py`). The rank-th
  twin-prime pair below 10^4, or the rank-th prime `4m + 1`, fixes the size.
  Quadratic-residue root sequences are built over it. The 0/1 basic pattern
  follows from the roots, and the decoder is `(2A - 1) / sum(A)`.

Values are Dafny `real`. Arrays are `seq<seq<real>>` (module `Grids`), except
in the mask-pattern code, which uses `array`/`array2` as the source fills
tensors in place.

An infinite variance is the explicit value `Inf` (module `Extended`). The
signal-to-noise value `sky / sqrt(var)` is kept exact as
`Quot(sky, var)` without computing a square root. Its comparison with a
threshold is decided in real arithmetic. `Extended.ExceedsQuotient` shows it
agrees with `sky / y > t` for every positive root `y` of `var`.

`scipy.signal.correlate` is defined by an explicit index formula (module
`Correlation`). The two generator loops share one model of a bounded
generator (module `Driver`): its yields, its per-yield peak counts, its
early return, and whether it went on from a state that real arithmetic
cannot describe (a calibration division by zero). Each loop method is proved
to produce exactly that run.

Modules, one file each:

- `Grids`: array shapes, cell-wise operations, sums.
- `Extended`: `Inf` and exact SNR values.
- `Correlation`: full and valid correlation.
- `Cameras`: the camera record.
- `SkyRec`: `skyrec.py`.
- `Shadowgrams`: `get_shadowgram`.
- `Driver`: the shared generator loop.
- `Iros`: `iros.py`.
- `IrosDepr`: `iros_depr.py`.
- `MaskPatterns`: `torchmaskpattern.py`.

## Model

| member | source | states |
|---|---|---|
| Grids.PointSource | Img_Reconstruction_RealMasks/dummymoon/iros.py:44-46 | `zeros(shape)` with `counts` written at `pos`: the image is `v` at `p`, 0 elsewhere, of the given shape |
| Grids.Zeros | Img_Reconstruction_RealMasks/dummymoon/iros.py:44 | `np.zeros(shape)`: the given shape, every cell 0 |
| Grids.PointSourceScale | Img_Reconstruction_RealMasks/dummymoon/iros.py:44-46 | a point source of `k * v` is `k` times the point source of `v` |
| Grids.SumLinear | Img_Reconstruction_RealMasks/dummymoon/skyrec.py:34 | `sum(k*a + b) == k*sum(a) + sum(b)` for arrays of one shape |
| Grids.SumOfZeros | Img_Reconstruction_RealMasks/dummymoon/skyrec.py:34 | an all-zero array sums to 0 |
| Correlation.FullCorrelate | Img_Reconstruction_RealMasks/dummymoon/skyrec.py:36 | full-mode correlation has shape `(|a| + |b| - 1) x (cols a + cols b - 1)`, each cell the overlap sum at its shift |
| Correlation.ValidCorrelate | Img_Reconstruction_RealMasks/dummymoon/skyrec.py:27 | valid-mode correlation is defined exactly when one input dominates the other on both axes, with shape `|a - b| + 1` per axis, each cell the overlap at its shift |
| Correlation.ValidIsCentralFull | Img_Reconstruction_RealMasks/dummymoon/skyrec.py:27 | every valid-mode cell is the full-mode cell at the same shift: the valid result is the central part of the full one |
| Correlation.ValidCell | Img_Reconstruction_RealMasks/dummymoon/skyrec.py:27 | valid-mode cell `(t, u)` is the overlap of the two inputs at the matching shift |
| Correlation.OverlapZero | Img_Reconstruction_RealMasks/dummymoon/skyrec.py:27 | correlating with an all-zero array gives 0 at every shift |
| Correlation.OverlapLinear | Img_Reconstruction_RealMasks/dummymoon/skyrec.py:27 | each correlation cell is linear in the second input: `overlap(a, k*b1 + b2) == k*overlap(a, b1) + overlap(a, b2)` |
| Extended.ScaleBySquare | Img_Reconstruction_RealMasks/dummymoon/skyrec.py:58 | `n^2 * var` keeps `Inf` infinite, multiplies a finite value by `n^2`, and keeps a variance that is positive or `Inf` positive or `Inf` |
| Extended.ExceedsQuotient | Img_Reconstruction_RealMasks/dummymoon/skyrec.py:67 | the exact SNR comparison agrees with `n / y > t` for every positive `y` with `y*y == d` |
| Extended.SameQuotValue | Img_Reconstruction_RealMasks/dummymoon/skyrec.py:67 | two quotients related by `SameSnr` give the same `n / sqrt(d)` for any positive roots |
| Extended.SameSnrAgrees | Img_Reconstruction_RealMasks/dummymoon/skyrec.py:67 | two SNR values related by `SameSnr` denote the same real number and compare alike with every threshold |
| SkyRec.ValidCameraNonEmpty | Img_Reconstruction_RealMasks/dummymoon/skyrec.py:23-44 | a well-formed camera has non-empty mask, decoder and bulk of the stated shapes |
| SkyRec.SkyEncoding | Img_Reconstruction_RealMasks/dummymoon/skyrec.py:23-27 | encoding is defined exactly when the valid correlation of mask and sky has the bulk's shape; then it has the bulk's shape, each cell the correlation cell times the bulk cell |
| SkyRec.EncodingIsMaskedCorrelation | Img_Reconstruction_RealMasks/dummymoon/skyrec.py:27 | encoding is `ValidCorrelate(mask, sky) * bulk`, cell by cell, and defined exactly when those shapes agree |
| SkyRec.EncodingDefined | Img_Reconstruction_RealMasks/dummymoon/skyrec.py:23-27 | a sky of the camera's sky shape encodes to an image of the detector shape |
| SkyRec.EncodingLinear | Img_Reconstruction_RealMasks/dummymoon/skyrec.py:27 | `encode(k*s1 + s2) == k*encode(s1) + encode(s2)`, cell by cell |
| SkyRec.EncodedCellScale | Img_Reconstruction_RealMasks/dummymoon/skyrec.py:27 | scaling the sky by `k` scales every detector cell by `k` |
| SkyRec.EncodingOfZeros | Img_Reconstruction_RealMasks/dummymoon/skyrec.py:27 | an empty sky encodes to an all-zero detector |
| SkyRec.TransmittedSkyImage | Img_Reconstruction_RealMasks/dummymoon/skyrec.py:16-20 | the sky times `real_open_fraction` (a definition; `EncodingTransmitted` states what its encoding is) |
| SkyRec.EncodingTransmitted | Img_Reconstruction_RealMasks/dummymoon/skyrec.py:16-27 | encoding the transmitted sky `sky * open_fraction` gives `open_fraction` times the encoding of the sky |
| SkyRec.ReplaceNonPositive | Img_Reconstruction_RealMasks/dummymoon/skyrec.py:42 | a variance cell becomes `Inf` exactly when it is `<= 0` and is kept otherwise; the result is positive or infinite |
| SkyRec.SkyReconstruction | Img_Reconstruction_RealMasks/dummymoon/skyrec.py:30-44 | for a non-empty detector: both maps have the full-mode shape; the sky is the raw correlation minus the offset; the variance is the balanced formula with non-positive cells replaced; every variance cell is positive or `Inf` |
| SkyRec.ReconstructionIsBalancedCorrelation | Img_Reconstruction_RealMasks/dummymoon/skyrec.py:34-40 | the sky map is `FullCorrelate(decoder, detector) - offset`; the variance is built from `FullCorrelate(decoder^2, detector)` and the raw, unbalanced sky |
| SkyRec.ReconstructionShape | Img_Reconstruction_RealMasks/dummymoon/skyrec.py:36-44 | a detector of the detector shape reconstructs to two maps of the sky shape |
| SkyRec.Offset | Img_Reconstruction_RealMasks/dummymoon/skyrec.py:34-37 | the DC term `balancing * sum(detector) / sum(bulk)` (a definition; `BalancedSkyOffset` and `OffsetOfCombination` state its properties) |
| SkyRec.BalancedVariance | Img_Reconstruction_RealMasks/dummymoon/skyrec.py:39-40 | the balanced variance `var + balancing^2 * sum(detector) / sum(bulk)^2 - 2 * sky * balancing / sum(bulk)`, as `q = balancing / sum(bulk)` (a definition; `ZeroVariance` states a property) |
| SkyRec.BalancedSkyOffset | Img_Reconstruction_RealMasks/dummymoon/skyrec.py:34-37 | raw minus balanced sky is the same constant in every pair of cells |
| SkyRec.OffsetOfCombination | Img_Reconstruction_RealMasks/dummymoon/skyrec.py:37 | the offset is linear in the detector |
| SkyRec.BalancedSkyLinear | Img_Reconstruction_RealMasks/dummymoon/skyrec.py:36-37 | the balanced sky is linear in the detector: `rec(k*d1 + d2) == k*rec(d1) + rec(d2)`, cell by cell |
| SkyRec.ZeroVariance | Img_Reconstruction_RealMasks/dummymoon/skyrec.py:37-40 | a detector summing to 0 has zero offset, and its balanced variance at zero raw terms is 0 |
| SkyRec.ReconstructionOfZeros | Img_Reconstruction_RealMasks/dummymoon/skyrec.py:36-42 | an all-zero detector reconstructs to sky 0 and variance `Inf` in every cell |
| SkyRec.Norm | Img_Reconstruction_RealMasks/dummymoon/skyrec.py:54-56 | the normalisation factor is never 0 |
| SkyRec.NormValue | Img_Reconstruction_RealMasks/dummymoon/skyrec.py:54-56 | `norm == mask.size / (mask.sum * bulk.sum)`, non-zero, and positive exactly when `bulk.sum > 0` |
| SkyRec.Normalised | Img_Reconstruction_RealMasks/dummymoon/skyrec.py:58 | the sky is scaled by `n` and the variance by `n^2` cell by cell, shapes kept |
| SkyRec.SkyrecNorm | Img_Reconstruction_RealMasks/dummymoon/skyrec.py:47-58 | `skyrec_norm` keeps both shapes, multiplies every sky cell by the norm and every variance cell by its square, `Inf` kept |
| SkyRec.ScaleVariance | Img_Reconstruction_RealMasks/dummymoon/skyrec.py:58 | `np.square(n) * var`: same shape, each cell scaled by `n^2`, `Inf` kept |
| SkyRec.NormKeepsVariancePositive | Img_Reconstruction_RealMasks/dummymoon/skyrec.py:54-58 | a variance cell that is positive or `Inf` stays so after normalisation |
| SkyRec.SnrCell | Img_Reconstruction_RealMasks/dummymoon/skyrec.py:61-69 | SNR is 0 for an `Inf` or negative variance, the quotient `sky / sqrt(var)` for a positive one, and always well formed |
| SkyRec.SnrCellQuotient | Img_Reconstruction_RealMasks/dummymoon/skyrec.py:67 | for a positive variance the SNR cell exceeds `t` exactly when `sky / sqrt(var) > t` |
| SkyRec.SkySnr | Img_Reconstruction_RealMasks/dummymoon/skyrec.py:61-69 | `sky_snr` keeps the shape and is the cell SNR everywhere |
| SkyRec.ReconstructionSnrCells | Img_Reconstruction_RealMasks/dummymoon/skyrec.py:61-69 | on a reconstruction every SNR cell is 0 where the variance is `Inf` and the quotient elsewhere |
| SkyRec.SnrCellScale | Img_Reconstruction_RealMasks/dummymoon/skyrec.py:58-67 | scaling sky by `c > 0` and variance by `c^2` leaves the SNR value unchanged |
| SkyRec.ScaledQuotient | Img_Reconstruction_RealMasks/dummymoon/skyrec.py:58-67 | `c*s / sqrt(c^2 * v)` and `s / sqrt(v)` are the same SNR value for `c > 0` |
| SkyRec.SnrCellAgrees | Img_Reconstruction_RealMasks/dummymoon/skyrec.py:58-67 | a cell scaled by `c > 0` (sky) and `c^2` (variance) passes a threshold exactly when the unscaled cell does |
| SkyRec.SnrUnchangedByScaling | Img_Reconstruction_RealMasks/dummymoon/skyrec.py:58-67 | normalising by any `c > 0` leaves every SNR cell, and every threshold comparison, unchanged |
| SkyRec.SnrUnchangedByNorm | Img_Reconstruction_RealMasks/dummymoon/skyrec.py:54-67 | with `bulk.sum > 0` (so `norm > 0`), `skyrec_norm` leaves every SNR cell and threshold comparison unchanged |
| SkyRec.SnrOfZeros | Img_Reconstruction_RealMasks/dummymoon/skyrec.py:61-69 | an all-zero detector has SNR 0 in every cell |
| Shadowgrams.Centre | Img_Reconstruction_RealMasks/dummymoon/iros.py:35-38 | the centre pixel `((n-1)//2, (m-1)//2)` is inside the sky |
| Shadowgrams.PointResponse | Img_Reconstruction_RealMasks/dummymoon/iros.py:34-42 | the summed detector counts `d_on`/`d_off` of a calibration point source of flux `1e4` at a sky pixel (a definition; `SourceCalibration` divides by it) |
| Shadowgrams.CentreResponse | Img_Reconstruction_RealMasks/dummymoon/iros.py:36-41 | `d_on`, the response at the centre pixel (a definition) |
| Shadowgrams.SourceCalibration | Img_Reconstruction_RealMasks/dummymoon/iros.py:33-42 | the ratio `d_off / d_on` is defined exactly when the summed responses at `pos` and at the centre are both non-zero; then it is non-zero and equals the response at `pos` over the response at the centre |
| Shadowgrams.Shadowgram | Img_Reconstruction_RealMasks/dummymoon/iros.py:44-48 | the point source's encoding divided by a given non-zero ratio has the detector shape (`ShadowgramIsDividedEncoding` ties it to `sky_encoding`) |
| Shadowgrams.ShadowgramIsDividedEncoding | Img_Reconstruction_RealMasks/dummymoon/iros.py:44-48 | the shadowgram is the encoding of the point source of `counts` at `pos`, divided cell by cell by the calibration |
| Shadowgrams.GetShadowgram | Img_Reconstruction_RealMasks/dummymoon/iros.py:19-48 | the shadowgram is defined exactly when the calibration ratio of `pos` is; then it has the detector shape and is the encoding of the point source of `counts` at `pos`, divided cell by cell by that ratio |
| Shadowgrams.CentreCalibration | Img_Reconstruction_RealMasks/dummymoon/iros.py:33-42 | when the centre response `d_on` is non-zero, the calibration ratio of the centre pixel is defined and exactly 1 |
| Shadowgrams.ShadowgramAtCentre | Img_Reconstruction_RealMasks/dummymoon/iros.py:33-48 | when `d_on` is non-zero, the shadowgram of the centre pixel is defined and is the plain encoding of the point source |
| Shadowgrams.ShadowgramScale | Img_Reconstruction_RealMasks/dummymoon/iros.py:44-48 | the shadowgram is linear in `counts`: `k * counts` gives `k` times each cell |
| Driver.Run | Img_Reconstruction_RealMasks/dummymoon/iros.py:161-192 | the generator run: yield and go on while an iteration finds peaks, return the output of the first that finds none, stop after the last iteration; undefined when an iteration with peaks leaves no real-valued state and iterations remain (a definition; its properties are the `Run*` lemmas) |
| Driver.RunBounded | Img_Reconstruction_RealMasks/dummymoon/iros.py:161-192 | a run yields at most once per iteration, logs one positive peak count per yield, and returns early only with iterations to spare; it is undefined only after a yield with iterations left, and then returns nothing |
| Driver.RunFirst | Img_Reconstruction_RealMasks/dummymoon/iros.py:176-192 | the first iteration is the first yield if it finds peaks, and the returned value if not |
| Driver.RunDefined | Img_Reconstruction_RealMasks/dummymoon/iros_depr.py:175-195 | a run whose iterations always leave a state is never undefined |
| Driver.RunKeeps | Img_Reconstruction_RealMasks/dummymoon/iros.py:161-192 | a state property every iteration keeps, which makes outputs `ok`, holds for every yielded and returned value |
| Driver.RunStops | Img_Reconstruction_RealMasks/dummymoon/iros.py:188-192 | the returned value, if the run stops early, is the output of an iteration with no peak |
| Iros.BestUpTo | Img_Reconstruction_RealMasks/dummymoon/iros.py:14-16 | the position is at or before `(i, j)` in row-major order, no earlier cell is as large, and no cell up to `(i, j)` is larger |
| Iros.Argmax | Img_Reconstruction_RealMasks/dummymoon/iros.py:14-16 | for a non-empty array: the in-bounds first maximum in row-major order |
| Iros.FirstMaxUnique | Img_Reconstruction_RealMasks/dummymoon/iros.py:14-16 | the first maximum is unique |
| Iros.ArgWhere | Img_Reconstruction_RealMasks/dummymoon/iros.py:58-59 | `np.argwhere(snr > t)`: the above-threshold cells in row-major order (a definition; `ArgWhereSpec` states it) |
| Iros.CountAbove | Img_Reconstruction_RealMasks/dummymoon/iros.py:58-59 | `_n_snr_peaks`, the length of `ArgWhere` (a definition; `NoPeaks` states when it is 0) |
| Iros.ArgWhereSpec | Img_Reconstruction_RealMasks/dummymoon/iros.py:58-59 | `argwhere(snr > t)` lists exactly the cells whose SNR exceeds `t`, in strictly increasing row-major order (so each once) |
| Iros.NoPeaks | Img_Reconstruction_RealMasks/dummymoon/iros.py:58-59 | the peak count is 0 exactly when no cell exceeds the threshold |
| Iros.Record | Img_Reconstruction_RealMasks/dummymoon/iros.py:61-68 | `record_source` appends one element to each of the four lists and keeps them aligned |
| Iros.SelectionOf | Img_Reconstruction_RealMasks/dummymoon/iros.py:70-86 | `select_source` returns the first maximum of the sky, its counts, and the number of cells with SNR above the threshold |
| Iros.RecordedTable | Img_Reconstruction_RealMasks/dummymoon/iros.py:70-86 | the dataset gains the argmax entry (pos, counts, `skyvar[loc]`, snr) exactly when the SNR at the argmax beats the threshold and the position is new; otherwise it is unchanged |
| Iros.SelectKeepsTable | Img_Reconstruction_RealMasks/dummymoon/iros.py:61-86 | selection keeps the four lists aligned and positions distinct, extends the table by at most one entry, and keeps the old entries |
| Iros.NoPeaksNoRecord | Img_Reconstruction_RealMasks/dummymoon/iros.py:70-77 | with no SNR peak nothing is recorded |
| Iros.SourcesDataset.constructor | Img_Reconstruction_RealMasks/dummymoon/iros.py:155-158 | a new dataset has four empty lists |
| Iros.SourcesDataset.RecordSource | Img_Reconstruction_RealMasks/dummymoon/iros.py:61-68 | the dataset object's table becomes `Record` of the old table |
| Iros.SourcesDataset.SelectSource | Img_Reconstruction_RealMasks/dummymoon/iros.py:51-86 | returns `SelectionOf` and updates the dataset to `RecordedTable` of the old one, keeping it valid; with no SNR peak the dataset is unchanged |
| Iros.ClampNegative | Img_Reconstruction_RealMasks/dummymoon/iros.py:184 | `detector[detector < 0] = 0`: same shape, non-negative, negative cells become 0 and others are kept |
| Iros.ClampKeepsNonNegative | Img_Reconstruction_RealMasks/dummymoon/iros.py:184 | clamping a non-negative array changes nothing |
| Iros.Observe | Img_Reconstruction_RealMasks/dummymoon/iros.py:164-173 | one round's maps have the sky shape, its selection is `SelectionOf` those maps with the argmax in the sky, and its table is `RecordedTable` of the table it was given |
| Iros.RemoveSource | Img_Reconstruction_RealMasks/dummymoon/iros.py:182-184 | the new detector is defined exactly when the shadowgram is; then it is `max(detector - shadowgram, 0)` cell by cell, of the detector shape and non-negative |
| Iros.IterationOf | Img_Reconstruction_RealMasks/dummymoon/iros.py:164-186 | one IROS round: it yields the round's maps and dataset with its peak count, and any detector it leaves has the detector shape; it leaves none when the shadowgram of the selected source is undefined |
| Iros.Iterate | Img_Reconstruction_RealMasks/dummymoon/iros.py:161-192 | the IROS round as the loop's step function is defined on every detector of the right shape, and any detector it leaves has that shape |
| Iros.IrosRun | Img_Reconstruction_RealMasks/dummymoon/iros.py:129-192 | `IROS` run from `data` with an empty dataset for `max_iterations` iterations (a definition; `IrosBounded`, `IrosDistinct` and `IrosStopsClean` state its properties) |
| Iros.IrosBounded | Img_Reconstruction_RealMasks/dummymoon/iros.py:161-192 | IROS yields at most `max_iterations` times, each with a positive peak count, and returns early only with iterations left; it is undefined only after a yield with iterations left |
| Iros.IterateKeepsTable | Img_Reconstruction_RealMasks/dummymoon/iros.py:172-186 | a round keeps the sources table aligned and duplicate-free, hands it to the next round if there is one, and a round with no peak leaves it unchanged |
| Iros.IterateKeeps | Img_Reconstruction_RealMasks/dummymoon/iros.py:161-192 | every round keeps the table invariant |
| Iros.IrosDistinct | Img_Reconstruction_RealMasks/dummymoon/iros.py:79-86 | in every yielded and returned dataset the four lists are aligned and no position repeats |
| Iros.IterateStopsClean | Img_Reconstruction_RealMasks/dummymoon/iros.py:176-192 | a round that finds no peak outputs an SNR map with no cell above the threshold |
| Iros.IrosStopsClean | Img_Reconstruction_RealMasks/dummymoon/iros.py:176-192 | when IROS returns early, no cell of the returned SNR map exceeds the threshold |
| Iros.IrosIteration | Img_Reconstruction_RealMasks/dummymoon/iros.py:164-186 | one loop body computes the round's step and peak count, and the dataset holds the step's table; with peaks, the new detector is defined exactly when the round leaves a state, and is then that state's detector; with none, neither the detector nor the dataset changes |
| Iros.Iros | Img_Reconstruction_RealMasks/dummymoon/iros.py:129-192 | the loop, starting from a copy of `data`, produces exactly the yields, peak counts, early return and undefinedness of `IrosRun` |
| Iros.Placed | Img_Reconstruction_RealMasks/dummymoon/iros.py:207-211 | the sky cell after writing each recorded count at its position in order, the last write winning (a definition; `PlacedDistinct` states it for distinct positions) |
| Iros.PlacedDistinct | Img_Reconstruction_RealMasks/dummymoon/iros.py:207-211 | with distinct positions, the rebuilt sky is the recorded counts at each recorded position and 0 elsewhere |
| Iros.IrosSkyrec | Img_Reconstruction_RealMasks/dummymoon/iros.py:195-230 | the rebuilt sky has the sky shape and holds at each cell the counts of the last source recorded there (0 if none), and `residues == sky_image - sky` cell by cell |
| IrosDepr.Record | Img_Reconstruction_RealMasks/dummymoon/iros_depr.py:52-60 | `record_source` appends exactly one element to each of its three lists, keeping the old ones as a prefix |
| IrosDepr.SourcesLog.constructor | Img_Reconstruction_RealMasks/dummymoon/iros_depr.py:169-171 | a new log has three empty lists |
| IrosDepr.SourcesLog.RecordSource | Img_Reconstruction_RealMasks/dummymoon/iros_depr.py:52-60 | the log object gets `Record` of its old contents and the same object is returned |
| IrosDepr.CheckPeaks | Img_Reconstruction_RealMasks/dummymoon/iros_depr.py:62-64 | `_check_peaks(n)` holds exactly when `n != 0` |
| IrosDepr.CheckPeaksMeansPeak | Img_Reconstruction_RealMasks/dummymoon/iros_depr.py:62-64 | the check on the peak count holds exactly when some cell exceeds the threshold |
| IrosDepr.Logged | Img_Reconstruction_RealMasks/dummymoon/iros_depr.py:128-155 | with no peak, or an already recorded argmax, the log is unchanged; otherwise the argmax is recorded with counts divided by the open fraction `f` and its SNR |
| IrosDepr.RecordsBelowThreshold | Img_Reconstruction_RealMasks/dummymoon/iros_depr.py:134-155 | a concrete input where the argmax cell is recorded although its own SNR is below the threshold (another cell peaks) |
| IrosDepr.LoggedKeeps | Img_Reconstruction_RealMasks/dummymoon/iros_depr.py:147-155 | selection keeps the log aligned and duplicate-free, extending it by at most one entry |
| IrosDepr.SourcesLog.SelectSource | Img_Reconstruction_RealMasks/dummymoon/iros_depr.py:128-155 | returns the argmax, its counts and the peak count, and updates the log to `Logged` of the old one |
| IrosDepr.Shadowgram | Img_Reconstruction_RealMasks/dummymoon/iros_depr.py:117-126 | the uncalibrated shadowgram has the detector shape, as the source asserts |
| IrosDepr.ShadowgramUncalibrated | Img_Reconstruction_RealMasks/dummymoon/iros_depr.py:117-126 | wherever the newer `get_shadowgram` is defined it is this shadowgram divided by the calibration ratio, and at the centre pixel with `d_on` non-zero the two are equal |
| IrosDepr.IrosIteration | Img_Reconstruction_RealMasks/dummymoon/iros_depr.py:157-166 | the new detector plus the shadowgram gives back the old one (no clamping), and the new maps are the reconstruction and SNR of the new detector |
| IrosDepr.IterationSkyDifference | Img_Reconstruction_RealMasks/dummymoon/iros_depr.py:161-164 | the new sky is the old detector's reconstruction minus the shadowgram's, cell by cell |
| IrosDepr.Iterate | Img_Reconstruction_RealMasks/dummymoon/iros_depr.py:175-195 | one round of the older loop is defined on every state of the right shapes and leaves such a state |
| IrosDepr.DeprRun | Img_Reconstruction_RealMasks/dummymoon/iros_depr.py:168-195 | the older `IROS` run from the given maps and an empty log for `n_iterations` iterations (a definition; `DeprBounded`, `DeprDefined`, `DeprDistinct` and `DeprStopsClean` state its properties) |
| IrosDepr.DeprBounded | Img_Reconstruction_RealMasks/dummymoon/iros_depr.py:175-195 | the loop yields at most `n_iterations` times, each with a positive peak count, returning early only with iterations left |
| IrosDepr.IterateTotal | Img_Reconstruction_RealMasks/dummymoon/iros_depr.py:175-191 | every older-loop round leaves a state, since it divides by no calibration |
| IrosDepr.DeprDefined | Img_Reconstruction_RealMasks/dummymoon/iros_depr.py:168-195 | the older loop's run is never undefined |
| IrosDepr.IterateKeeps | Img_Reconstruction_RealMasks/dummymoon/iros_depr.py:180-191 | every round keeps the log aligned and duplicate-free |
| IrosDepr.DeprDistinct | Img_Reconstruction_RealMasks/dummymoon/iros_depr.py:147-155 | every yielded and returned log is aligned and has no repeated position |
| IrosDepr.IterateStopsClean | Img_Reconstruction_RealMasks/dummymoon/iros_depr.py:186-195 | a round with no peak outputs an SNR map with no cell above the threshold |
| IrosDepr.DeprStopsClean | Img_Reconstruction_RealMasks/dummymoon/iros_depr.py:186-195 | when the loop returns early, the returned SNR map has no cell above the threshold |
| IrosDepr.Padded | Img_Reconstruction_RealMasks/dummymoon/iros_depr.py:172-183 | the peak list has length `n_iterations`, holding the logged counts first and 0 after |
| IrosDepr.PaddedSet | Img_Reconstruction_RealMasks/dummymoon/iros_depr.py:183 | setting entry `i` of the padded list is the same as logging one more count |
| IrosDepr.PaddedSetZero | Img_Reconstruction_RealMasks/dummymoon/iros_depr.py:183 | writing 0 at the next entry of the padded list changes nothing |
| IrosDepr.AddBack | Img_Reconstruction_RealMasks/dummymoon/iros_depr.py:161 | adding the subtracted shadowgram back restores the detector |
| IrosDepr.DeprIteration | Img_Reconstruction_RealMasks/dummymoon/iros_depr.py:180-191 | one loop body computes the round's output and peak count and leaves the next state |
| IrosDepr.IrosDeprecated | Img_Reconstruction_RealMasks/dummymoon/iros_depr.py:168-195 | the loop produces exactly the run `DeprRun`, and `snr_peaks_list` has length `n_iterations` with entry `i` set at iteration `i` and 0 after the last |
| MaskPatterns.CheckRank | Img_GPUReconstruction_2D/torchmaskpattern.py:34-36 | a rank is accepted exactly when it is `>= 0`, and is then kept |
| MaskPatterns.IsPrime | Img_GPUReconstruction_2D/torchmaskpattern.py:60-61 | sympy's `isprime`: at least 2 with no divisor strictly between 1 and itself (a definition) |
| MaskPatterns.SmallPrimes | Img_GPUReconstruction_2D/torchmaskpattern.py:44-52 | 2, 3 and 5 are prime, 4 is not |
| MaskPatterns.EuclidLemma | Img_GPUReconstruction_2D/torchmaskpattern.py:64-70 | a prime divides no product of two numbers strictly between 0 and itself |
| MaskPatterns.TwinsBelow | Img_GPUReconstruction_2D/torchmaskpattern.py:39-54 | the twin pairs `(p2, p1)` with `p2` below the bound, in increasing order (a definition; `TwinsBelowSound`/`TwinsBelowComplete` state it) |
| MaskPatterns.TwinsBelowSound | Img_GPUReconstruction_2D/torchmaskpattern.py:39-54 | every listed pair `(r, s)` has both values prime, `r - s == 2`, `r` below the bound, and exactly `k` pairs below the `k`-th |
| MaskPatterns.TwinsBelowComplete | Img_GPUReconstruction_2D/torchmaskpattern.py:39-54 | every twin pair below the bound is listed |
| MaskPatterns.FirstTwin | Img_GPUReconstruction_2D/torchmaskpattern.py:39-54 | the twin pair of rank 0 is `(5, 3)` |
| MaskPatterns.ConsecutiveGap | Img_GPUReconstruction_2D/torchmaskpattern.py:46-52 | for consecutive primes the gap test `p2 - p1 == 2` holds exactly when `(p2, p2 - 2)` is a twin pair |
| MaskPatterns.GetPrimePair | Img_GPUReconstruction_2D/torchmaskpattern.py:39-54 | returns the rank-th twin pair below 10^4, and raises `ValueError` exactly when there are not that many |
| MaskPatterns.MuraPrimesBelow | Img_GPUReconstruction_2D/torchmaskpattern.py:121-132 | the primes `4m + 1` below the bound, in increasing order (a definition; `MuraPrimesSpec` states it) |
| MaskPatterns.MuraPrimesSpec | Img_GPUReconstruction_2D/torchmaskpattern.py:121-132 | the list holds exactly the primes `4m + 1`, `m >= 1`, below the bound, the `k`-th having `k` below it |
| MaskPatterns.MuraStep | Img_GPUReconstruction_2D/torchmaskpattern.py:126-132 | going from `4m + 1` to `4m + 5` adds `4m + 1` to the list exactly when it is prime |
| MaskPatterns.GetPrime | Img_GPUReconstruction_2D/torchmaskpattern.py:121-132 | returns a prime `l = 4m + 1` with `m >= 1` that has exactly `rank` such primes below it |
| MaskPatterns.FirstMuraPrime | Img_GPUReconstruction_2D/torchmaskpattern.py:121-132 | the MURA prime of rank 0 is 5 |
| MaskPatterns.MuraPrimeUnique | Img_GPUReconstruction_2D/torchmaskpattern.py:121-132 | the rank determines the MURA prime |
| MaskPatterns.ZeroNotResidue | Img_GPUReconstruction_2D/torchmaskpattern.py:64-70 | 0 is not `x**2 % p` for any `x` in `1 .. p-1` when `p` is prime |
| MaskPatterns.ResidueBelowStep | Img_GPUReconstruction_2D/torchmaskpattern.py:67-68 | one more `x` in the loop makes `k` a square exactly when it already was or `x**2 % p == k` |
| MaskPatterns.Root | Img_GPUReconstruction_2D/torchmaskpattern.py:64-72 | the root has length `p`; each entry is 1 exactly at the non-zero squares mod `p` and -1 elsewhere |
| MaskPatterns.GetPatternRoot | Img_GPUReconstruction_2D/torchmaskpattern.py:57-72 | the loop leaves `C[k] == 1` exactly when `k == x**2 % p` for some `x` in `1 .. p-1`, else -1; in particular `C[0] == -1` |
| MaskPatterns.UraCellResidues | Img_GPUReconstruction_2D/torchmaskpattern.py:77-87 | for `i, j >= 1` a cell is 0 or 1, and it is 1 exactly when `i` and `j` are both residues or both non-residues |
| MaskPatterns.UraBasicPattern | Img_GPUReconstruction_2D/torchmaskpattern.py:75-87 | the `r x s` array has row 0 zero, column 0 one below it, and elsewhere 1 exactly when `C_r[i] * C_s[j] == 1` |
| MaskPatterns.MuraBasicPattern | Img_GPUReconstruction_2D/torchmaskpattern.py:149-160 | the `l x l` array is the transpose of the same construction with `C_s == C_r` |
| MaskPatterns.TotalColumnBound | Img_GPUReconstruction_2D/torchmaskpattern.py:82-83 | non-negative cells with 1 in column 0 below row 0 sum to at least the number of rows minus 1 |
| MaskPatterns.TotalRowBound | Img_GPUReconstruction_2D/torchmaskpattern.py:154-160 | non-negative cells with 1 in row 0 after column 0 sum to at least the number of columns minus 1 |
| MaskPatterns.Signed | Img_GPUReconstruction_2D/torchmaskpattern.py:92 | `2*A - 1` on a new array of the same shape |
| MaskPatterns.DivideInPlace | Img_GPUReconstruction_2D/torchmaskpattern.py:93 | `G /= d` divides every cell in place |
| MaskPatterns.UraDecoder | Img_GPUReconstruction_2D/torchmaskpattern.py:90-95 | `G == (2A - 1) / sum(A)` cell by cell |
| MaskPatterns.MuraDecoder | Img_GPUReconstruction_2D/torchmaskpattern.py:163-169 | `G == (2A - 1) / sum(A)` except `G[0, 0] == 1 / sum(A)` |
| MaskPatterns.UraPatternSum | Img_GPUReconstruction_2D/torchmaskpattern.py:82-93 | the URA pattern sums to at least `r - 1 > 0` |
| MaskPatterns.MuraPatternSum | Img_GPUReconstruction_2D/torchmaskpattern.py:154-167 | the MURA pattern sums to at least `l - 1 > 0` |
| MaskPatterns.UraMaskPattern.Create | Img_GPUReconstruction_2D/torchmaskpattern.py:21-54 | a negative rank, or a rank with no twin pair below 10^4, raises `ValueError`; otherwise the pattern holds the rank-th pair with a valid pattern and decoder |
| MaskPatterns.UraMaskPattern.constructor | Img_GPUReconstruction_2D/torchmaskpattern.py:21-31 | `__init__` sets type `URA`, the rank, the pair, the basic pattern and the decoder consistently |
| MaskPatterns.UraPatternValues | Img_GPUReconstruction_2D/torchmaskpattern.py:77-87 | in the URA's pattern row 0 is 0, column 0 is 1 below it, and elsewhere a cell is 1 exactly when `i` and `j` agree in being residues |
| MaskPatterns.UraDecoderValues | Img_GPUReconstruction_2D/torchmaskpattern.py:90-95 | the URA's decoder is `+1/S` on open cells and `-1/S` on closed ones, with `S >= r - 1 > 0` |
| MaskPatterns.MuraMaskPattern.Create | Img_GPUReconstruction_2D/torchmaskpattern.py:103-132 | a negative rank raises `ValueError`; otherwise the pattern holds the rank-th MURA prime with a valid pattern and decoder |
| MaskPatterns.MuraMaskPattern.constructor | Img_GPUReconstruction_2D/torchmaskpattern.py:103-113 | `__init__` sets type `MURA`, the rank, `l`, the basic pattern and the decoder consistently |
| MaskPatterns.MuraPatternValues | Img_GPUReconstruction_2D/torchmaskpattern.py:149-160 | column 0 of the MURA's pattern is 0, row 0 is 1 after its first cell, and elsewhere a cell is 1 exactly when `i` and `j` agree in being residues |
| MaskPatterns.MuraDecoderValues | Img_GPUReconstruction_2D/torchmaskpattern.py:163-169 | the MURA's decoder is `+-1/S` on open and closed cells except `1/S` at `(0, 0)`, with `S >= l - 1 > 0` |

## Left out

- Plotting, printing and progress bars are not modelled: `show_snr_distr`, `check_snr_distr`, `show_snr_peaks`, `image_plot` and the `print` calls. They have no effect on the computed values.
- The `snr_distr`/`snr_peaks` flags of `IROS` and the `show_snr_distr` flag of the older loop are not modelled, because they only drive plots. The older loop's `show_peaks_num` is taken as `True`, its default, so `snr_peaks_list[i]` is always set.
- Floating point is not modelled. Values are exact reals: there is no rounding, no overflow and no NaN propagation.
- `np.sqrt` is not computed. The SNR is kept as the exact quotient `sky / sqrt(var)`.
- For `np.nan_to_num`, only the cases that occur are written out: a zero variance with non-zero sky gives the largest finite double, with the sign of the sky; 0/0 gives 0.
- Division by zero is excluded by preconditions where the source would produce `inf`/`nan`. These cases are: `bulk.sum() == 0` in the offset and the norm, a mask with no open element, and a zero open fraction in the older loop.
- A zero calibration response `d_on` or `d_off` is not excluded. The calibration ratio and the shadowgram are then `None`. The numpy values are not modelled: an infinite ratio when only `d_on` is 0 would give an all-zero shadowgram, and otherwise the shadowgram holds `inf`/`nan`.
- `Iros.Iros`: after a round whose shadowgram is `None`, the model yields that round and then marks the run undefined if iterations remain (`Outcome.undefined`). It does not follow the source's later rounds on a detector holding `nan`. On those rounds `IrosRun` promises nothing further.
- `scipy.signal.correlate` swaps its inputs when the second is larger. The model does not write this out; its explicit index formula gives the same numbers.
- The model does not cover numpy broadcasting of size-1 axes in `sky_encoding`'s product. A shape mismatch is modelled as no result.
- The yielded `sources_dataset` is one dict object that the source later keeps appending to. The model yields a snapshot of its contents at each yield instead.
- `_source_calibration` (the unused first calibration in `get_shadowgram`) is dead code and is not modelled.
- The older loop calls `sky_encoding(cam.mask, s, cam.bulk)` and `sky_reconstruction(cam.mask, cam.decoder, detector, cam.bulk)` with the signatures of an earlier `skyrec`. These calls are modelled with the current `SkyEncoding`/`SkyReconstruction` on the camera.
- The older file's `argmax` is the same function as the current one and is modelled once, as `Iros.Argmax`.
- `IROS` is modelled on values: the input `data` is a sequence the loop copies and never writes, so the in-place update of the Python array is not modelled.
- `iros_skyrec` only places `counts`. The `std`/`snr` lookups it does for printing are not modelled.
- `Shadowgrams.ShadowgramScale`: only scaling in `counts` is proved, not full additivity of the shadowgram in the sky, because the additive form was too expensive to verify.
- `MaskPatterns.GetPrime`: the source's `while True` search has no bound. The model takes a ghost `bound` below which more than `rank` primes `4m + 1` lie. It uses the bound only to show that the search ends, not to change the result. The infinitude of such primes is not proved.
- `MaskPatterns.MuraMaskPattern.Create`: it carries the same ghost `bound` precondition as `GetPrime`.
- Torch and sympy are not modelled. Tensors are `array`/`array2` of `int` (entries -1/0/1), and the decoder is `array2<real>`. `primerange`/`isprime` are replaced by the predicate `IsPrime`. The `clone` of the MURA root is not modelled, since nothing writes to either copy.
- The `assert rank >= 0` inside `_get_prime_pair`/`_get_prime` is not checked separately: ranks reach these methods as `nat` after `CheckRank`.
- The `isprime` and `r - s == 2` assertions in `_get_pattern_root` are preconditions of `GetPatternRoot` and of the constructors.
