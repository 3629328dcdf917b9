# Separated representations and periodic Gaussian fits (MADNESS), in Dafny

This project models two pieces of the MADNESS numerical library and proves
properties of them.

**`SepRep<T>`, the separated (canonical) tensor of `seprep.h`.** It follows
Beylkin and Mohlenkamp, SIAM J. Sci. Comput. 26(6), 2005. A representation of
rank r is a list of r weights w_l plus one factor matrix per effective axis,
with one row of length kVec per term. It stands for the dense tensor
`f(i_0, ..., i_n) = sum_l w_l * F_0[l, i_0] * ... * F_n[l, i_n]`.

- The data, `SRConf`, is a datatype value. Its shape invariant is the predicate `Configs.Valid`.
- `SepRep` is a Dafny class with the one field `configs`. Its methods update that field in place, as the C++ methods update `configs_`.
- Every method is proved against a function that states what the new configuration is. Those functions carry the properties.
- The model covers:
  - compatibility, `+=` and `-=`;
  - slicing, with MADNESS's inclusive and negative-counting `Slice`;
  - reconstruction and accumulation into a buffer;
  - the condition number and the clamped Frobenius norm;
  - the overlap, with its bilinearity and symmetry, and the proof that it is the Frobenius inner product of the represented tensors;
  - the truncation rule of `computeSVD`;
  - one ALS sweep of `generalizedALS`, with its per-term update;
  - the sweep loop of `optimize`;
  - the rank-reduction rounds of `doReduceRank`, and `reduceRank`.

**Two pieces of `GFit` in `gfit.h`.** The first is `truncate_periodic_expansion`, which cuts and folds a Gaussian expansion for a periodic cell. The second is the empirical integration limit TT of `bsh_fit` and `slater_fit`.

**Numbers and library routines.**
- Doubles are Dafny `real`s.
- A linear-solve result may hold NaN. The datatype `Numerics.Value` represents that.
- `sqrt`, `svd`, `gesv` and the random numbers of `fillWithRandom` are fields of an oracle record, `Tensors.Lib`. The ghost predicate `Tensors.LibSpec` fixes what the model relies on from each:
  - `sqrt` is the square root on non-negative reals;
  - `svd` returns a decomposition with descending singular values that sums back to its input;
  - `gesv` either fails or returns a matrix that solves the system unless it holds a NaN;
  - the random draws have the right length.

**Failures.** A failed `MADNESS_ASSERT`, a `std::runtime_error` and an exception of the dense-tensor library are returned as values (`Wrappers.Failure`). Methods that return nothing in C++ return an `Outcome`.

Modules follow the structure of the code:
- `Configs`: the `SRConf` value and its algebra.
- `Norms`: the read-only queries.
- `InnerProducts`: the overlap and the Frobenius norm as sums over the entries of the represented tensors.
- `Slicing`: `operator()`.
- `Reconstruction`.
- `SvdTruncation`: `computeSVD`.
- `Als`: `generalizedALS`.
- `Sweeping`: the stopping rule of the `optimize` loop, for any sweep and norm.
- `Optimization`: `optimize`, with the ALS sweep and the Frobenius norm.
- `RankReduction`: `doReduceRank` and `reduceRank`.
- `SepReps`: the class.
- `GFit`.
- `Tensors`, `Numerics` and `Wrappers`: the dense-tensor library, exact arithmetic and the failure values.

## Model

| member | source | states |
|---|---|---|
| Configs.EmptyConf | src/lib/mra/seprep.h:89-92 | The configuration `SepRep(tt, k, dim)` starts from is valid, has rank 0, and has the requested type, order and dimension. |
| Configs.KVec | src/lib/mra/seprep.h:297-298 | With one original axis per effective axis, a factor vector holds k entries. |
| Configs.Append | src/lib/mra/seprep.h:143 | The sum of two configurations is valid. Its weights are the weights of a followed by those of b. Every factor matrix is the matrix of a followed by that of b. |
| Configs.AppendEntry | src/lib/mra/seprep.h:136-145 | Every entry of the tensor a sum stands for is the sum of the two entries. |
| Configs.Negate | src/lib/mra/seprep.h:153 | Negating a configuration negates every weight and keeps the factors. |
| Configs.NegateEntry | src/lib/mra/seprep.h:147-156 | Negating the weights negates every entry of the represented tensor. |
| Configs.OverlapWithRankZero | src/lib/mra/seprep.h:516 | The overlap with a configuration of rank 0 is 0. |
| Configs.OverlapAppend | src/lib/mra/seprep.h:521 | The overlap is additive in its first argument: the overlap of a + b with c is the sum of the two overlaps. |
| Configs.OverlapNegate | src/lib/mra/seprep.h:521 | Negating one side negates the overlap. |
| Configs.OverlapSymmetric | src/lib/mra/seprep.h:513-523 | The overlap is symmetric. So `overlap(rhs, lhs)` computing `overlap(lhs.configs_, rhs.configs_)`, with the arguments swapped, gives the same value. |
| Configs.AxisDotsSymmetric | src/lib/mra/seprep.h:521 | The product over axes of the factor-row dot products of two terms does not depend on which side comes first. |
| Configs.GridSwap | src/lib/mra/seprep.h:521 | Summing the term-pair overlaps row by row or column by column gives the same total. |
| Configs.Reassign | src/lib/mra/seprep.h:1117 | `reassign(idim, l, w, fvec)` changes exactly weight l and row l of factor matrix idim, and keeps the configuration valid. |
| Configs.MaxWeightUpTo | src/lib/mra/seprep.h:276 | `maxWeight` is an upper bound of the weights that is attained by one of them, and 0 without weights. |
| Norms.CompatibleConformal | src/lib/mra/seprep.h:737-740 | Compatibility (equal type, order and dimension) is an equivalence. Compatible valid configurations have factor vectors of one length. |
| Norms.ConditionNumber | src/lib/mra/seprep.h:274-283 | The condition number is the larger of maxWeight^2 * 1e-14 and 1e-14. So it is never below 1e-14. |
| Norms.OverlapOf | src/lib/mra/seprep.h:513-523 | The overlap is 0 when either side has rank 0. It is a failed assertion exactly when both have terms and are incompatible. Otherwise it is the configurations' overlap. |
| Norms.SelfOverlap | src/lib/mra/seprep.h:533 | The self-overlap a norm takes is what `overlap(*this, *this)` returns. |
| Norms.FrobeniusNorm | src/lib/mra/seprep.h:527-550 | The norm is never negative, and 0 for rank 0. With terms it is 0 exactly when sqrt of the absolute self-overlap is below the condition number. A nonzero norm squares to the absolute self-overlap and is at least the condition number. |
| InnerProducts.PairSum | src/lib/mra/seprep.h:512-521 | Summed over every index, the product of term p of a with term q of b is w_p * w_q times the product over the axes of the inner products of their factor rows, the term overlap. |
| InnerProducts.RowSum | src/lib/mra/seprep.h:512-521 | Summed over every index, term p of a times the first n terms of b is the sum of the n term overlaps. |
| InnerProducts.GridSum | src/lib/mra/seprep.h:512-521 | Summed over every index, the first m terms of a times the first n terms of b is the sum of all m * n term overlaps. |
| InnerProducts.OverlapIsInnerProduct | src/lib/mra/seprep.h:512-521 | The overlap of two compatible configurations is their Frobenius inner product: the sum over every index of the product of the two represented entries. |
| InnerProducts.SelfOverlapIsSquareSum | src/lib/mra/seprep.h:532-533 | The self-overlap is the sum of the squared entries, and so never negative. |
| InnerProducts.FrobeniusNormIsEntryNorm | src/lib/mra/seprep.h:526-550 | Where the norm is not clamped to 0, its square is the sum of the squared entries of the represented tensor. |
| Norms.IsValid | src/lib/mra/seprep.h:244-251 | A representation is valid exactly when its dimension is positive. A positive dimension with k = 0 and no tensor type is a failed assertion. |
| Numerics.ToUnsigned32 | src/lib/mra/seprep.h:167-168 | The unsigned order a signed k_new becomes is k_new modulo 2^32: unchanged when non-negative, k_new + 2^32 when negative. |
| Tensors.UnitSliceExtent | src/lib/tensor/oldtest.cc:339-344 | A unit-step slice selects end - start + 1 indices once negative ends count from the back, and its j-th index is start + j. |
| Tensors.SliceOneToMinusTwo | src/lib/tensor/oldtest.cc:339-344 | `Slice(1, -2)` on an axis of extent n >= 3 selects n - 2 entries, namely 1, ..., n - 2. On extent 5 these are three entries. |
| Tensors.SliceRowSingle | src/lib/mra/seprep.h:191 | Slicing a factor row of one merged axis picks exactly the selected entries. |
| Tensors.ExtentsUniform | src/lib/mra/seprep.h:195-206 | m merged axes cut by slices of extent e each leave e^m entries per factor row. |
| Slicing.SlicedVectors | src/lib/mra/seprep.h:185-210 | Every factor matrix keeps its rows, and each row is cut by the slices of the original axes merged into its effective axis. |
| Slicing.SliceConf | src/lib/mra/seprep.h:159-223 | One slice per dimension and a first slice of step 1 are asserted. Weights, type and dimension are kept. The new order is the unsigned end - start + 1, plus k when the end is negative on the path with terms. Without terms the result is a valid empty configuration. With terms, the structure and a merge of 1, 2 or 3 are asserted, and the factors are sliced. |
| Slicing.SliceOrderIsExtent | src/lib/mra/seprep.h:178-179 | On the path with terms and for a non-negative start, the new order is the number of indices the first slice selects, whichever way its end counts. |
| Slicing.SliceValid | src/lib/mra/seprep.h:185-221 | When every slice selects as many indices as the new order, the slice is a valid configuration of the same rank. |
| Tensors.PickRow | src/lib/mra/seprep.h:188-206 | The position a cut row reads from lies inside the original row of k^m entries. |
| Tensors.SliceRowPick | src/lib/mra/seprep.h:188-206 | Cutting a row of m merged axes keeps the product of the slice extents, and entry j of the cut row is the original entry at `PickRow`: j read as digits, most significant first, each digit mapped through its own slice and weighted by k to the number of axes after it. |
| Tensors.PickRowTwo | src/lib/mra/seprep.h:195-199 | With two merged axes, entry j of the cut row is original entry Pick(s0, j / e1) * k + Pick(s1, j % e1), where e1 is the extent of the second slice. |
| Slicing.SliceRowEntry | src/lib/mra/seprep.h:185-206 | Entry j of row l of a sliced factor matrix is the original row's entry at the position the slices of that effective axis pick. |
| Slicing.SliceEntry | src/lib/mra/seprep.h:185-219 | For any merge of 1, 2 or 3 axes, and slices of one common extent, every entry of the slice is the entry of the original at the indices the slices pick. |
| Slicing.SliceWithoutTermsIgnoresNegativeEnd | src/lib/mra/seprep.h:166-169 | On the path without terms, `Slice(1, -2)` gives order 2^32 - 2 and not k - 2: the negative end is not corrected there. |
| Reconstruction.Zeros | src/lib/mra/seprep.h:581-588 | Rank 0 reconstructs to the all-zero tensor of shape k^dim. |
| Reconstruction.LayoutSize | src/lib/mra/seprep.h:663-668 | kVec^axes equals k^dim, so the configurational layout reshapes to the k^dim tensor. |
| Reconstruction.Reconstruct | src/lib/mra/seprep.h:566-671 | Rank 0 gives zeros. With terms, any axis count other than 2 or 3 is a failed assertion. A success has shape k^dim. |
| Reconstruction.ReconstructEntry2 | src/lib/mra/seprep.h:614-629 | Entry (i0, i1) is the sum over the terms of w_l * F0[l, i0] * F1[l, i1]. |
| Reconstruction.ReconstructEntry3 | src/lib/mra/seprep.h:642-656 | Entry (i0, i1, i2) is the sum over the terms of w_l * F0[l, i0] * F1[l, i1] * F2[l, i2]. |
| Reconstruction.ReconstructSize | src/lib/mra/seprep.h:590-592 | Two or three axes reconstruct to kVec^2 or kVec^3 entries. |
| Reconstruction.ReconstructAppend | src/lib/mra/seprep.h:136-145 | The reconstruction of a sum is the entry-wise sum of the reconstructions. |
| Reconstruction.ReconstructNegate | src/lib/mra/seprep.h:147-156 | The reconstruction of the negation is the entry-wise negation. |
| SvdTruncation.LastKept | src/lib/mra/seprep.h:330-338 | The last kept index i is the largest one whose tail sum s_i^2 + ... exceeds the threshold. Every later tail is within it. It is -1 when no tail exceeds it. |
| SvdTruncation.LastKeptUnique | src/lib/mra/seprep.h:335-338 | Only one index meets those two conditions. |
| SvdTruncation.LastKeptMinimal | src/lib/mra/seprep.h:330-338 | Keeping i + 1 values is the fewest that drops at most the threshold: every shorter prefix drops more. |
| SvdTruncation.TruncationIndex | src/lib/mra/seprep.h:333-338 | The backward scan that adds s(i)^2 and breaks once the sum exceeds the threshold finds `LastKept`. |
| SvdTruncation.Truncated | src/lib/mra/seprep.h:341-345 | The new configuration keeps the first q singular values as weights and has rank q. It is structured. |
| SvdTruncation.TruncatedValid | src/lib/mra/seprep.h:346-348 | The kept triplets of the SVD of a kVec x kVec matrix form a valid configuration. |
| SvdTruncation.TruncatedEntry | src/lib/mra/seprep.h:341-345 | Every entry of the truncated configuration is the partial SVD sum of the first q triplets. |
| SvdTruncation.TruncatedFullIsExact | src/lib/mra/seprep.h:328 | Keeping every triplet reproduces the matrix entry for entry. |
| SvdTruncation.ComputeSvd | src/lib/mra/seprep.h:314-351 | A non-matrix or a type other than 2-D is a failed assertion, and so is a kept cut of a matrix that is not kVec x kVec. A norm below eps * 1e-4 changes nothing. Otherwise the cut uses threshold eps^2 * 1e-4: when nothing is kept only the structured view changes, and else the kept triplets replace the configuration. |
| SvdTruncation.ComputeSvdEntries | src/lib/mra/seprep.h:321-349 | After a cut, the rank is the kept count. The dropped squares sum to at most eps^2 * 1e-4, while the squares from the last kept value on exceed it. Every entry is the SVD sum of the kept triplets. |
| SvdTruncation.OverwrittenValid | src/lib/mra/seprep.h:341-348 | The kept triplets written over a 2-D configuration, before the assertions, form a valid configuration exactly when the matrix was kVec x kVec. |
| SvdTruncation.ComputeSvdLeaves | src/lib/mra/seprep.h:314-349 | A non-matrix or a type other than 2-D leaves the configuration as it was. When `ComputeSvd` fails, what is left is valid exactly in those two cases: after a cut of a matrix that is not kVec x kVec the overwritten configuration is not valid. |
| Als.TermUpdate | src/lib/mra/seprep.h:1070-1117 | A row with a NaN is the runtime error "NaNs in ALS". Otherwise the weight is non-negative with weight^2 the row's sum of squares. Weight times factor gives back the row. A zero row gets weight 0 and the all-0.01 factor; any other row gets a unit factor. |
| Als.UpdateRows | src/lib/mra/seprep.h:1070-1118 | Updating terms l, l+1, ... fails exactly when one of their rows holds a NaN. Rank, type and shape are kept. The other axes and the earlier terms are not touched. |
| Als.UpdateRowsFrom | src/lib/mra/seprep.h:1070-1117 | After the update, every updated term's weighted factor row is its solved row, with a unit or fallback factor and a non-negative weight. |
| Als.UpdateRowsTerms | src/lib/mra/seprep.h:1068-1118 | Updating all terms from a solved x makes the weighted factor matrix equal to x, and x is NaN-free. |
| Als.SystemMatrix | src/lib/mra/seprep.h:895-955 | B on axis idim, the entry-wise product of the Gram matrices of the other axes plus 1e-14 on the diagonal, is rF x rF. |
| Als.HadamardExceptEntry | src/lib/mra/seprep.h:946-955 | Entry (p, q) of the entry-wise product of the factors of the axes other than idim is the product of their entries (p, q). |
| Als.EntryExceptIsDots | src/lib/mra/seprep.h:946-955 | When every factor's entry (p, q) is the inner product of rows p and q, shifted on the diagonal, their product is the product over the other axes of those inner products. |
| Als.SystemMatrixEntry | src/lib/mra/seprep.h:895-955 | Entry (p, q) of B is the product over the axes other than idim of the inner products of trial rows p and q, each plus 1e-14 when p == q. |
| Als.SystemSymmetric | src/lib/mra/seprep.h:923-955 | Those products are symmetric in p and q, so B is symmetric. |
| Als.CrossMatrix | src/lib/mra/seprep.h:923-955 | The product over the other axes of the trial-reference overlaps is rF x rG. |
| Als.CrossMatrixEntry | src/lib/mra/seprep.h:923-955 | Entry (p, q) of the cross matrix is the product over the axes other than idim of the inner products of trial row p with reference row q. |
| Als.CrossAllAxes | src/lib/mra/seprep.h:923-955 | With no axis left out, those products are the factor overlaps that the overlap of the two configurations weights and sums. |
| Als.ScaleColumns | src/lib/mra/seprep.h:965-981 | Column l of the cross matrix is scaled by w_l * fac. |
| Als.ReferenceRhs | src/lib/mra/seprep.h:965-984 | A reference's part of b is rF x kVec. |
| Als.ReferenceRhsEntry | src/lib/mra/seprep.h:963-984 | Entry (p, j) of a reference's part of b is the sum over the reference's terms l of the cross product of trial row p with term l, times w_l * fac, times entry j of term l's factor row on axis idim. |
| Als.DenseRhs | src/lib/mra/seprep.h:989-1045 | The part of b that the dense values give is rF x kVec. |
| Als.Rhs | src/lib/mra/seprep.h:958-1045 | b is rF x kVec. It fails, with a dense-tensor error, exactly when a reference that takes part has factor vectors of another length, or values are asked for and missing or of the wrong size. |
| Als.AxisStep | src/lib/mra/seprep.h:933-1118 | A successful axis update keeps type, rank and shape, and every other axis. Its only runtime error is "NaNs in ALS". |
| Als.AxisStepSolves | src/lib/mra/seprep.h:1048-1118 | After the update on axis idim, B times the weighted factor rows is b: the new terms solve the normal equations of that axis. The factor rows are unit vectors or the fallback, and the weights are non-negative. |
| Als.AxisStepNormalises | src/lib/mra/seprep.h:1094-1117 | Solving axis idim normalises that axis and keeps the normalisation of the axes before it. |
| Als.SweepFrom | src/lib/mra/seprep.h:933-1119 | The axes are solved in order. Success keeps type, rank and shape, and the only runtime error is "NaNs in ALS". |
| Als.SweepFromNormalises | src/lib/mra/seprep.h:933-1119 | Solving the axes a, a+1, ... in turn leaves every axis normalised, given the axes below a are. |
| Als.SweepChecks | src/lib/mra/seprep.h:881-893 | The checks pass exactly when ref1 and, if it takes part, ref2 match the trial's type, the two references are compatible, there is one scratch matrix per axis, the trial has terms, and B1 and B2 are rF x rG1 and rF x rG2. Any other case is a failed assertion. |
| Als.AlsSweep | src/lib/mra/seprep.h:858-1120 | A failed check is a failed assertion. A success keeps type, rank and shape, and the only runtime error is "NaNs in ALS". |
| Als.SweepNormalises | src/lib/mra/seprep.h:1070-1118 | After a sweep the trial has terms, no weight is negative, and every factor row on every axis is a unit vector or the all-0.01 fallback. |
| Sweeping.Loop | src/lib/mra/seprep.h:826-852 | At most maxloop sweeps run. Stopping before maxloop means the third or a later sweep passed the test against the norm recorded before it. A runtime error becomes "rank reduction failed". |
| Sweeping.RecordedStep | src/lib/mra/seprep.h:826-850 | After one successful sweep, the later trials and recorded norms are those from the new trial, shifted by one. |
| Sweeping.LoopIterated | src/lib/mra/seprep.h:826-852 | A run that ends after sweep s holds exactly the trial of s - iloop uninterrupted sweeps. |
| Sweeping.LoopNotEarlier | src/lib/mra/seprep.h:845-849 | No sweep before the last, from loop index 2 on, passed the stopping test on the norms the loop recorded. |
| Sweeping.LoopOldnorm | src/lib/mra/seprep.h:845-850 | A run stopped by the test kept the norm of the sweep before its last. |
| Sweeping.LoopFailure | src/lib/mra/seprep.h:831-836 | A failed run is the renamed failure of the first sweep that fails within maxloop. |
| Sweeping.IteratedKept | src/lib/mra/seprep.h:826-852 | A property every successful sweep keeps holds of every trial the sweeps reach, and one every successful sweep establishes holds once a sweep was made. |
| Sweeping.LoopKept | src/lib/mra/seprep.h:826-852 | The trial a successful run ends on keeps what the sweeps keep, and has what they establish once a sweep was made. |
| Optimization.LoopKeeps | src/lib/mra/seprep.h:826-852 | ALS sweeps from a valid trial end on a valid trial of the same type, rank and shape. After at least one sweep it has terms and is normalised, and a stop before maxloop is on converged Frobenius norms. |
| Optimization.SweepsStep | src/lib/mra/seprep.h:828-851 | One turn of the loop: nothing at maxloop, the renamed failure of a failed sweep, a stop on convergence from loop index 2 on, or else the sweeps from the next index with the new norm. |
| Sweeping.LoopTraced | src/lib/mra/seprep.h:826-852 | From sweep 0, a success holds the trial of exactly its sweep count, no sweep from the third to the one before the last passed the test, a stop before maxloop kept the norm of the sweep before its last, and a failure is the first failing sweep's. |
| Optimization.OptimizeTraced | src/lib/mra/seprep.h:799-854 | Past the checks, `optimize` gives the trial of exactly as many ALS sweeps, from the reset scratch, as it reports. None of sweeps 3 to s - 1 passed the test, a stop before maxloop kept the norm of sweep s - 1, and a failure is the first failing sweep's. |
| Optimization.ResetScratch | src/lib/mra/seprep.h:818-824 | The scratch for every effective axis becomes an rF x rG zero matrix, and the rest is kept. |
| Optimization.OptimizeChecks | src/lib/mra/seprep.h:812-814 | The checks fail, with a failed assertion, exactly when fac1 is nonzero and the trial is incompatible with ref1, or fac2 is nonzero and ref1 is incompatible with ref2. |
| Optimization.Sweeps | src/lib/mra/seprep.h:826-852 | At most maxloop sweeps run. Stopping before maxloop means the third or a later sweep found the Frobenius norm converged. A runtime error of a sweep becomes "rank reduction failed". After any sweep the trial is normalised. |
| Optimization.Optimize | src/lib/mra/seprep.h:799-854 | Failed checks are failed assertions. A success ran between min(3, maxloop) and maxloop sweeps, and fewer than maxloop only on convergence. It keeps type, rank and shape, and leaves a normalised trial when maxloop > 0. A runtime error becomes "rank reduction failed". |
| RankReduction.RandomConf | src/lib/mra/seprep.h:454-455 | `fillWithRandom(1)` gives a valid, unstructured rank-one configuration of the same type, order and dimension. |
| RankReduction.RandomConfCompatible | src/lib/mra/seprep.h:454 | The random residual depends only on the type, order and dimension it is drawn for. |
| RankReduction.Scratch | src/lib/mra/seprep.h:432-437 | `doReduceRank` allocates one scratch matrix per effective axis. |
| RankReduction.AsMatrix | src/lib/mra/seprep.h:361-365 | The reconstruction is reshaped into a kVec x kVec matrix with the same entries. |
| RankReduction.ViewKeeps | src/lib/mra/seprep.h:409 | Switching the structured view keeps validity, compatibility, rank and normalisation. |
| RankReduction.EmptyTrial | src/lib/mra/seprep.h:440-441 | The trial starts empty, unstructured, and compatible with the reference. |
| RankReduction.ReduceFrom | src/lib/mra/seprep.h:451-484 | At most maxloop rounds run, and every completed round adds exactly one term to the trial. The trial stays compatible and, once grown, normalised. Stopping early means the residual norm fell below the threshold. |
| RankReduction.ResidualRound | src/lib/mra/seprep.h:453-465 | The residual round stops with the unchanged trial when the residual norm is below the threshold. Otherwise it continues with the trial round. |
| RankReduction.TrialRound | src/lib/mra/seprep.h:467-482 | Adding the residual and refitting grows the trial by the residual's rank, and the rounds go on from there. |
| RankReduction.DoReduceRank | src/lib/mra/seprep.h:376-509 | Nothing to reduce (no terms, no values) leaves the configuration. Otherwise the outcome is the rounds' failure, the "no convergence" assertion when the last residual norm is above eps * 1e-4, or else the trial in the structured view. A success is compatible and structured, has at most 218 terms, and is normalised. The only runtime error is "rank reduction failed". |
| RankReduction.DoReduceRankConverged | src/lib/mra/seprep.h:488-506 | A successful reduction holds one term per round, and its last residual norm is within eps * 1e-4. It is below that unless all 218 rounds ran. |
| RankReduction.ReconstructedMatrix | src/lib/mra/seprep.h:361-365 | A two-axis configuration reconstructs, and its reconstruction reshaped is a kVec x kVec matrix with the same entries. |
| RankReduction.ReduceRank | src/lib/mra/seprep.h:353-372 | Three axes give `DoReduceRank`'s failure or its result in the structured view. Two axes without values give `ComputeSvd` of the reconstructed matrix, and a result neither structured nor empty fails the final assertion. An unknown type or values given for a 2-D representation is a failed assertion. A success is compatible, and structured or of rank 0. |
| SepReps.Accumulated | src/lib/mra/seprep.h:689-705 | Adding fac times b to a buffer a changes every entry by fac times the matching entry of b. |
| SepReps.AddScaled | src/lib/mra/seprep.h:697-705 | The buffer loop leaves exactly `Accumulated` of the old buffer. |
| SepReps.ResidualStep | src/lib/mra/seprep.h:453-465 | The residual half of a round on the objects agrees with `ResidualRound`. |
| SepReps.JoinResidual | src/lib/mra/seprep.h:470-474 | Adding the residual to the trial in the structured view leaves the trial holding its own terms followed by the residual's, in the unstructured view, and leaves the residual as it was. |
| SepReps.TrialStep | src/lib/mra/seprep.h:467-482 | The trial half of a round on the objects agrees with `TrialRound`. |
| SepReps.Round | src/lib/mra/seprep.h:451-484 | One round on the two objects agrees with `ReduceFrom` at that round. |
| SepReps.NewPair | src/lib/mra/seprep.h:439-448 | The trial and the residual are two new, distinct, valid objects compatible with the reference. The trial is the empty unstructured trial. |
| SepReps.ReduceRounds | src/lib/mra/seprep.h:450-484 | The loop's outcome, trial, round count and last norm are those of `ReduceFrom` from the empty trial. |
| SepReps.SepRep.constructor | src/lib/mra/seprep.h:89-92 | A new object holds the empty configuration of the given type, order and dimension. |
| SepReps.SepRep.AddAssign | src/lib/mra/seprep.h:136-145 | `+=` is a failed assertion exactly when type, order or dimension differ or rhs is this object, and then nothing changes. Otherwise the terms of rhs are appended. |
| SepReps.SepRep.SubAssign | src/lib/mra/seprep.h:147-156 | `-=` asserts only equal type and order and another object. A dimension mismatch is left to the configuration arithmetic. On success the negated terms of rhs are appended. |
| SepReps.SepRep.EntryAt | src/lib/mra/seprep.h:644-653 | The weights multiplied entry-wise by each axis's factor column and then summed give the represented entry. |
| SepReps.SepRep.FillEntries2 | src/lib/mra/seprep.h:614-629 | The two-axis loops produce the reconstruction's data. |
| SepReps.SepRep.FillEntries3 | src/lib/mra/seprep.h:642-656 | The three nested loops produce the reconstruction's data. |
| SepReps.SepRep.ReconstructTensor | src/lib/mra/seprep.h:566-671 | `reconstructTensor` returns `Reconstruct` of the configuration. |
| SepReps.SepRep.AccumulateInto | src/lib/mra/seprep.h:674-724 | Rank 0 leaves the buffer. A buffer of the wrong size, or an axis count other than 2, fails and leaves the buffer. Otherwise fac times the reconstruction is added entry by entry. |
| SepReps.SepRep.ComputeSVD | src/lib/mra/seprep.h:314-351 | A success leaves the configuration `ComputeSvd` gives, which is valid. A failure returns `ComputeSvd`'s failure and leaves the configuration `ComputeSvdLeaves` describes: untouched for a failed matrix or type assertion, and the overwritten weights and factors for a failed kVec assertion. |
| SepReps.SepRep.UpdateTerms | src/lib/mra/seprep.h:1070-1118 | The term loop leaves the configuration `UpdateRows` gives, or stops with its error. |
| SepReps.SepRep.SweepAxis | src/lib/mra/seprep.h:933-1118 | The work on one axis leaves the trial `AxisStep` gives. |
| SepReps.SepRep.GeneralizedAls | src/lib/mra/seprep.h:858-1120 | `generalizedALS` leaves the trial `AlsSweep` gives, or its failure. |
| SepReps.SepRep.Optimize | src/lib/mra/seprep.h:799-854 | `optimize` leaves the trial `Optimization.Optimize` gives, or its failure. |
| SepReps.SepRep.DoReduceRank | src/lib/mra/seprep.h:376-509 | `doReduceRank` leaves the configuration `RankReduction.DoReduceRank` gives, or its failure. |
| SepReps.SepRep.ReduceRank | src/lib/mra/seprep.h:353-372 | `reduceRank` leaves the configuration `RankReduction.ReduceRank` gives, or its failure. |
| GFit.CutIndex | src/lib/mra/gfit.h:120-126 | icut is the first index whose exponent is below 0.25 / L^2. Every exponent before it is not. It is -1 when there is none. |
| GFit.Truncated | src/lib/mra/gfit.h:106-136 | Both sequences keep one length, and the exponents stay an unchanged prefix. No cut changes nothing. `discardG0` keeps terms 0..icut. Without it, icut = 0 changes nothing, and icut > 0 gives term icut the sum of the coefficients from icut on before the cut. Without `discardG0` the total of the coefficients is preserved. |
| GFit.TruncatedIdempotent | src/lib/mra/gfit.h:106-136 | Truncating a truncated fit again changes nothing. |
| GFit.FoldTail | src/lib/mra/gfit.h:128-130 | The accumulation `c(icut) += c(i)` leaves c(icut) the sum of the coefficients from icut on and keeps every other entry. |
| GFit.TruncatePeriodicExpansion | src/lib/mra/gfit.h:106-136 | The search loops and the accumulation produce exactly `Truncated`. |
| GFit.QuadratureLimit | src/lib/mra/gfit.h:168-174 | TT is between 5 and 30. It is 5 exactly when eps >= 1e-2 and 30 exactly when eps < 1e-12. |
| GFit.QuadratureLimitMonotone | src/lib/mra/gfit.h:339-345 | A smaller eps never gives a smaller TT. The same table appears in `bsh_fit` and `slater_fit`. |

## Left out

- `srconf.h` is not part of this model. `SRConf`'s operations are defined here by what `seprep.h` relies on:
  - `+=` is the concatenation of terms, and `-=` is the concatenation with negated weights;
  - `overlap` is the sum over term pairs of the weight products times the product of the row dot products;
  - `reassign` replaces one weight and one factor row. Its fifth argument, `ref1.kVec()` (`seprep.h`:1117), is dropped: the row is stored at the trial's own kVec, which equals ref1's whenever ref1 takes part in the right-hand side;
  - `maxWeight` is the largest weight, 0 for rank 0;
  - `make_structure` and `undo_structure` switch a view flag that leaves the terms as they are.
- `fillWithRandom(1)`: the draws are an oracle. The model fixes only the shape of the result and a unit weight.
- The zero-row fallback vector is all 0.01 directly. `fillrandom()` in the source is overwritten straight away.
- Floating point is not modelled: doubles are reals and the decimal constants are exact. NaN enters only through the linear solve. A zero norm in the stopping test of `optimize` is read as an IEEE quotient that fails the test.
- The scratch `B1` and `B2`: `generalizedALS` uses them as work space and leaves them changed. The model recomputes the products it needs, reads only the scratch's shapes, and does not give the changed contents back to the caller.
- The reference and the other arguments of `optimize` and `doReduceRank` are passed as values. In the source they are references to objects that the calls do not change.
- The `eps` argument of `optimize` is unused in the source and is not an argument in the model.
- `SepReps.SepRep.Optimize`, `GeneralizedAls`, `SweepAxis`, `UpdateTerms`, `DoReduceRank` and `ReduceRank`: the configuration after a failure is not stated. The failure is a failed assertion that ends the program, or an exception that leaves the rank reduction.
- The `bench` macro paths, every `print`, `printf` and `std::cout`, and the `print` flag of `doReduceRank` are left out. So are the capacity hints `reserve(10)` and the 218-row scratch allocation, which `optimize` resizes before use.
- The failure of `gesv` becomes the failed assertion "gesv failed", as its `catch` ends in `MADNESS_ASSERT(0)`.
- SvdTruncation.ComputeSvd: after a cut that keeps terms, the source asserts only that U has kVec rows, together with the rank checks (`seprep.h`:346-348). The model fails unless the matrix is kVec x kVec. A kVec x n matrix with n other than kVec passes in the source and leaves second-axis rows of length n, which no valid configuration has, since a configuration has one row length. `reduceRank` always passes the kVec x kVec reconstruction.
- `SepReps.SepRep.SubAssign`: when the dimensions differ, the model fails with a dense-tensor error. The configuration arithmetic that would then run is not part of this model.
- The constructor from values (`seprep.h`:95-113) is left out of scope. It reshapes the values to kVec^axes, runs `doReduceRank` or `computeSVD` on them, and asserts that the result is structured or empty. The model has those steps as `DoReduceRank` and `ComputeSvd`, but not the constructor.
- `oneTermApprox` (`seprep.h`:750ff) is left out of scope. It runs `optimize` on a random rank-one residual, and the model has `optimize` as `Optimization.Optimize`, but not this caller.
- The other members of `SepRep` that only forward to `SRConf` or to the dense-tensor library are left out for that reason: `copy`, `inplace_add`, `zeroOut`, `scale`, `normalize`, `reserve`, `transform`, `general_transform`, `transform_dir`, `update_by`, `finalize_accumulate`, `printCoeff` and `consistent`.
- Als.Rhs: the values are read as a row-major kVec^axes tensor, the layout the constructor from values reshapes them to before `doReduceRank`. The source applies `cycledim(dim-idim, 0, dim-1)` to the first axes of whatever shape it is given (`seprep.h`:998-1002). Values of the right size in another shape, such as k^6 for a 3-D representation of dimension 6, are not reordered as the source would reorder them.
- Slicing.SliceConf: a slice with step other than 1, or one that runs backwards, on any axis is refused with a dense-tensor error. The source asserts step 1 only for the first slice (`seprep.h`:163) and leaves the other slices to the dense-tensor library, whose strided and reversed slices are not modelled.
- `reconstructTensor` for one effective axis is a failed assertion in the source and in the model. Its dead loop after the assertion is left out.
- `conditionNumber`, `FrobeniusNorm` and the trial-rank bound are stated for exact reals. Rounding is not modelled.
- `GFit.TruncatePeriodicExpansion`: the coefficient and exponent sequences must have one length, as the source indexes both with the exponents' bound.
- `GFit.BelowCutoff`: for L = 0 the cutoff 0.25 / L / L is +infinity in IEEE arithmetic, and every exponent is below it. The model writes this case out.
- In `gfit.h` these are left out: the quadrature construction of `bsh_fit`, `bsh_fit_ndim` and `slater_fit` (it relies on `exp`, `log`, `floor` and `ceil` on doubles), the `exp`-based pruning loops, the moment functions (which use `erf`), the moment-matching `gesv`, the 4 pi scaling in `CoulombFit`, and `GeneralFit`, which only throws.
- `parsec_madness.cc` and `parsec_madness.h`, the task-runtime glue, are not part of this model. It is concurrency and foreign runtime code.
- `oldtest.cc` is used only for the semantics of `Slice` (lines 339-344) and of `cycledim`, whose ordering the values of `generalizedALS` follow (lines 263-285).
