# DistAUNTF in Dafny

A model of the distributed CP-ALS engine `DistAUNTF` (PLANC, `distntf/distauntf.hpp`),
seen from one MPI process. The local tensor block is split over a process grid. Every
process owns one row block of each factor matrix. The engine keeps, per mode, the
local factor and its transpose, the factor gathered over the mode's fiber and its
transpose, the KRP and MTTKRP buffers, and the mode's global Gram. An iteration visits
every mode in turn:

- distributed MTTKRP (local kernel, then a reduce-scatter over the mode's slice);
- Hadamard product of the other modes' Grams;
- local solve, normalisation and transpose;
- all-reduced Gram;
- all-gather of the new factor over the fiber.

Modules, one per concern of the source:

| module | file | what it holds |
|---|---|---|
| `Buffers` | buffers.dfy | flat `seq<real>` buffers, concatenation, sums, small arithmetic facts |
| `Matrices` | matrices.dfy | k × d matrices kept column by column; `Memory` is Armadillo's column-major `memptr()` buffer |
| `Collectives` | collectives.dfy | MPI_ALLGATHER (section 5.7 of MPI-3.1), MPI_ALLREDUCE with MPI_SUM (section 5.9.6) and MPI_REDUCE_SCATTER (section 5.10.2) as pure functions over the buffers of every communicator member in rank order; misuse (count mismatch, over-read, overflow) is an `Err` |
| `Grams` | grams.dfy | `applyReg`, the all-reduced Gram of a mode, `gram_hadamard` |
| `Exchange` | exchange.dfy | the all-gather of a factor over a fiber and the reduce-scatter of MTTKRP contributions over a slice, on matrices |
| `DistAuntf` | engine.dfy | the engine record, its invariant `Valid` (shapes from `allocateMatrices`; `local_t == transpose(local)` and `gathered == transpose(gathered_t)` for every mode), the constructor and the collective steps |
| `ErrorEstimate` | errors.dfy | the `computeError` radicand |
| `Schedule` | schedule.dfy | the order `computeNTF` runs things in, with per-mode version counters; a read of a buffer computed from an outdated factor is a `StaleRead` |
| `Lifecycle` | lifecycle.dfy | the raw `ncp_krp` and `kdt` pointers through `dim_tree`, `computeNTF`, `freeMatrices` and the destructor |
| `Results` | results.dfy | the `Result` type with `:-` support |

Peers' contributions to a collective are parameters. They are listed in communicator-rank
order, with this process's own buffer at index `me`. The solver, the local MTTKRP
kernel, `krp_leave_out_one` and `distributed_normalize` are not modelled. Their outputs
are parameters with the shapes the engine gives them. The output of `krp_leave_out_one`
is the `krp` parameter of the distributed MTTKRP, which stores it in `ncp_krp[m]`.

The comment above `computeError` (line 450) describes the error with a clamp at zero.
The code (lines 476-478) does not clamp. The model follows the code in
`ErrorEstimate.SquaredErrorAsWritten` and uses the clamped form in
`ErrorEstimate.ComputeError`; see Findings.

## Model

| member | source | states |
|---|---|---|
| Grams.ApplyReg | distntf/distauntf.hpp:101-115 | a positive L2 weight adds exactly 2·l2 to each diagonal entry and nothing off the diagonal; a positive L1 weight adds 2·l1 to every entry; with both weights ≤ 0 the matrix is unchanged; a symmetric Gram stays symmetric |
| Grams.ReducedGram | distntf/distauntf.hpp:84-89 | the all-reduce of the k·k local Gram buffers, read back as a k × k matrix, holds at (i, j) the sum over processes of (xᵀx)(i, j) |
| Grams.GramSumIsGramOfStack | distntf/distauntf.hpp:79-89 | the summed local Grams are, entry by entry, the Gram Hᵀ H of the whole factor whose row blocks the processes own |
| Grams.ReducedGramIsGramOfStack | distntf/distauntf.hpp:84-89 | the reduced Gram equals Gram(Stack(shards)) as a matrix |
| Grams.GlobalGram | distntf/distauntf.hpp:75-99 | a mode's global Gram is the summed local Grams plus the regularisation shifts (diagonal and off-diagonal cases); it is symmetric |
| DistAuntf.UpdateGlobalGram | distntf/distauntf.hpp:75-99 | only Gram slot m and the scratch local Gram change; slot m is Gram(Stack(world)) plus L2 shift on the diagonal and L1 shift everywhere, using weights 2m and 2m + 1; the slot is symmetric and the engine stays valid |
| Grams.GramHadamard | distntf/distauntf.hpp:120-128 | starting from all ones, the result at (i, j) is the product over every slot l ≠ m of slot l at (i, j); with one mode it is all ones; symmetric Grams give a symmetric product |
| Grams.ProductIgnoresExcludedSlot | distntf/distauntf.hpp:123-127 | the product for mode m does not depend on slot m: replacing it changes nothing |
| Grams.ProductWithExcludedSlot | distntf/distauntf.hpp:123-127 | the product for mode m times slot m is the product of every slot |
| Grams.ProductSymmetric | distntf/distauntf.hpp:123-127 | the product of symmetric Grams is symmetric entry by entry |
| DistAuntf.CombineGrams | distntf/distauntf.hpp:120-128 | only `global_gram` changes, and it becomes the product of every mode's Gram except mode m's |
| Collectives.AllGather | distntf/distauntf.hpp:165-171 | succeeds exactly when every member sends `count` elements; the receive buffer holds members × count elements; member p's block is at p · count |
| Collectives.AllReduceSum | distntf/distauntf.hpp:87-89 | succeeds exactly when every buffer holds `count` elements; element n of the result is the sum over members of their element n |
| Collectives.AllReduceScalar | distntf/distauntf.hpp:351-353 | the all-reduce of one scalar per process is their sum |
| Collectives.SplitConcat | distntf/distauntf.hpp:237-241 | the reduce-scatter pieces laid end to end give back the summed buffer |
| Collectives.SplitPiece | distntf/distauntf.hpp:237-241 | piece q of the split is the slice of the buffer that starts at the sum of the counts before q |
| Collectives.ReduceScatter | distntf/distauntf.hpp:237-241 | succeeds exactly when every send buffer holds Σ counts elements; piece q has counts[q] elements; the pieces concatenate to the element-wise sum |
| Collectives.ReduceScatterUniformPiece | distntf/distauntf.hpp:237-241 | with equal counts c, member q receives summed elements q·c .. q·c + c |
| Collectives.Store | distntf/distauntf.hpp:167 | writing a received block fails exactly when it overflows the receive buffer; otherwise the block lands at the start and the rest is untouched |
| Exchange.GatherFactor | distntf/distauntf.hpp:136-171 | the zeroed k × dim buffer receives the fiber's k × d shards: it succeeds exactly when every shard is k × d and they fit; column block p is member p's shard, in fiber-rank order; the columns past the blocks stay zero |
| Exchange.GatheredBlock | distntf/distauntf.hpp:165-171 | column block p of the received matrix is member p's shard |
| Exchange.GatheredZeros | distntf/distauntf.hpp:138 | the columns after the gathered blocks keep the zeros written before the call |
| Exchange.ScatterInto | distntf/distauntf.hpp:237-241 | this process's reduce-scatter piece lands at the start of the local MTTKRP buffer; the rest keeps its values |
| Exchange.OwnedBlock | distntf/distauntf.hpp:237-241 | with element counts k · d, the local MTTKRP is exactly column block `me` of the slice-wide sum of the members' MTTKRPs |
| DistAuntf.GatherNcpFactor | distntf/distauntf.hpp:135-189 | succeeds exactly when the fiber's shards are k × d and fit the mode's extent; only mode m's two gathered buffers change; `gathered_t(m)` is tiled by the shards in fiber-rank order and its columns past them stay zero; `gathered(m) == transpose(gathered_t(m))` |
| DistAuntf.RecvCountsAsWritten | distntf/distauntf.hpp:226 | the counts the source passes are one per slice member, each the shard's row count d |
| DistAuntf.AsWrittenCountFillsOnlyRankOne | distntf/distauntf.hpp:226 | such a count equals the element count of the k × d receive buffer exactly when k = 1 or d = 0 |
| DistAuntf.DistMttkrpAsWritten | distntf/distauntf.hpp:191-241 | with the counts as written the call succeeds when the short pieces fit; `ncp_krp[m]` becomes the given KRP and `ncp_mttkrp_t[m]` this process's contribution; every element of the local MTTKRP past the first d keeps its old value |
| DistAuntf.AsWrittenLeavesLastEntryStale | distntf/distauntf.hpp:226-241 | with k ≥ 2 and d ≥ 1 the last entry of the local MTTKRP is not written by the reduce-scatter as written |
| DistAuntf.DistMttkrpWith | distntf/distauntf.hpp:191-241 | for any counts: `ncp_mttkrp_t[m]` becomes this process's contribution; the call succeeds exactly when the counts fit both buffers; the local MTTKRP's first counts[me] elements are the reduce-scatter piece and the rest keep their values; `ncp_krp[m]` becomes the given KRP (the `krp_leave_out_one` output of lines 195-196); nothing else in the engine changes |
| DistAuntf.ElementCountsFit | distntf/distauntf.hpp:226-241 | element counts k · d pass the reduce-scatter's checks exactly when |slice| · d ≤ the mode's local extent |
| DistAuntf.DistMttkrp | distntf/distauntf.hpp:191-249 | with element counts, succeeds exactly when the slice's shards fit the mode; the local MTTKRP becomes column block `me` of the slice-wide sum; `ncp_krp[m]` becomes the given KRP and `ncp_mttkrp_t[m]` the contribution; only those three buffers of mode m change |
| DistAuntf.KrpRowsAreOtherModes | distntf/distauntf.hpp:261 | `numel / dim[i]` is exact and equals the product of the other modes' extents |
| DistAuntf.InitialMode | distntf/distauntf.hpp:259-268 | mode i starts with a KRP of (product of other extents) × k zeros, k × dim[i] and k × d zero MTTKRPs, a k × k zero Gram, and both factor duals consistent |
| DistAuntf.Construct | distntf/distauntf.hpp:321-354 | the new engine is valid (every mode's duals agree, every buffer has its allocated shape), has no regularisers, `global_gram` is all ones and the squared norm is the sum of every process's local squared norm |
| DistAuntf.SetRegularizers | distntf/distauntf.hpp:362 | only the regularisation weights change |
| DistAuntf.SetFactor | distntf/distauntf.hpp:427-430 | `local(m)` is the normalised factor and `local_t(m)` its transpose; only those and the weights change |
| DistAuntf.InstalledFactor | distntf/distauntf.hpp:427-432 | after setting the factor and updating the Gram, mode m holds the new factor in both orientations and its new global Gram, and no other mode changed |
| DistAuntf.CommitMode | distntf/distauntf.hpp:427-434 | after one mode update the engine is still valid (the duals agree for every mode), mode m's Gram is the Gram of the new factor, `gathered_t(m)` is tiled by the fiber's new shards, and no other mode changed |
| ErrorEstimate.SquaredErrorAsWritten | distntf/distauntf.hpp:476-478 | the radicand as coded: it fails on a zero norm and is negative exactly when ‖A‖² + ‖model‖² < 2⟨A, model⟩; otherwise its product with ‖A‖² is the numerator |
| ErrorEstimate.SquaredError | distntf/distauntf.hpp:450 | the clamped radicand: defined exactly when ‖A‖² ≠ 0, never negative for a positive norm, its product with ‖A‖² is max(numerator, 0), and it agrees with the unclamped value whenever that one is defined |
| ErrorEstimate.UnclampedRadicandCanBeNegative | distntf/distauntf.hpp:450-478 | at the level of the formula, ‖A‖² = 1, ‖model‖² = 0, ⟨A, model⟩ = 1 make the code's radicand negative while the clamped one is 0 (no real tensor and model have these values; see Findings) |
| ErrorEstimate.HadamardAllGramsIsAllGrams | distntf/distauntf.hpp:452 | when `global_gram` is the product for the last mode, `hadamard_all_grams` is the product of every mode's Gram |
| ErrorEstimate.HadamardAllGrams | distntf/distauntf.hpp:452 | `hadamard_all_grams` is k × k, holds at (i, j) the product of `global_gram` and the last mode's Gram there, and is symmetric when both are |
| ErrorEstimate.QuadFormOnes | distntf/distauntf.hpp:455-456 | λᵀ H λ computed as the row vector λᵀ H dotted with λ equals (Σ λ)² when H is all ones |
| ErrorEstimate.QuadFormIdentity | distntf/distauntf.hpp:455-456 | λᵀ H λ computed as the row vector λᵀ H dotted with λ equals Σ λ_i² when H is the identity |
| ErrorEstimate.ComputeErrorAsWritten | distntf/distauntf.hpp:448-478 | without the clamp: fails with a division by zero exactly when ‖A‖² = 0, and is the unclamped radicand of ‖A‖², λᵀ H λ and the summed inner products |
| ErrorEstimate.ComputeErrorAgrees | distntf/distauntf.hpp:450-478 | for a positive norm the clamped estimate equals the as-written one wherever that is defined, and is 0 where the as-written one would take the root of a negative number |
| ErrorEstimate.ComputeError | distntf/distauntf.hpp:448-478 | with the clamp the comment at line 450 promises: defined exactly when ‖A‖² ≠ 0, never negative for a positive norm, and equal to the radicand of ‖A‖², λᵀ H λ and the summed inner products |
| Schedule.Step | distntf/distauntf.hpp:400-438 | an event on a mode that does not exist fails; otherwise it succeeds exactly when everything it reads is up to date |
| Schedule.StepEffects | distntf/distauntf.hpp:400-438 | only the local update advances a factor version; a Gram update or gather brings its mode up to date; the MTTKRP and the Gram product record fresh inputs |
| Schedule.RunPrefixFails | distntf/distauntf.hpp:398-445 | once a run has read a stale buffer, nothing that follows recovers it |
| Schedule.PrewarmState | distntf/distauntf.hpp:382-385 | the prewarm succeeds and leaves every mode except mode 0 with a Gram and gathered factor of its current factor; mode 0 keeps the placeholders |
| Schedule.ModeZeroNeedsNoPrewarm | distntf/distauntf.hpp:382-417 | mode 0's first MTTKRP, Gram product and solve read no stale buffer |
| Schedule.NoPrewarmIsStale | distntf/distauntf.hpp:382-402 | with two or more modes and no prewarm, mode 0's first MTTKRP reads a stale gathered factor |
| Schedule.SkippedGatherIsStale | distntf/distauntf.hpp:432-434 | dropping `gather_ncp_factor(0)` from mode 0's turn makes mode 1's MTTKRP stale |
| Schedule.PlayTurn | distntf/distauntf.hpp:400-438 | one mode's turn reads only up-to-date inputs, advances only that mode's factor version, and leaves every Gram and gathered factor current |
| Schedule.PlayTurns | distntf/distauntf.hpp:400-439 | every mode's turn in order succeeds and advances every factor by one version; all Grams and gathered factors are current afterwards |
| Schedule.Iteration | distntf/distauntf.hpp:398-443 | one iteration, with the error check when switched on, reads no stale buffer |
| Schedule.ComputeNtf | distntf/distauntf.hpp:379-447 | the events `computeNTF` issues read no stale buffer; each factor is written once per iteration; after one iteration or more every Gram and gathered factor is current |
| Lifecycle.Construct | distntf/distauntf.hpp:251-256 | after construction `ncp_krp` is live and `kdt` was never assigned |
| Lifecycle.DimTreeAsWritten | distntf/distauntf.hpp:368-377 | turning the switch on deletes the array without nulling the pointer; it faults exactly when the array was already freed |
| Lifecycle.ComputeAsWritten | distntf/distauntf.hpp:193-196 | with the switch on a tree is built (lines 386-388); with it off, a run of at least one iteration writes into `ncp_krp` through its MTTKRP and faults exactly when the array was freed |
| Lifecycle.FreeMatricesAsWritten | distntf/distauntf.hpp:271-282 | clears and deletes `ncp_krp` whatever its state: a use after free and a double free when it was already deleted |
| Lifecycle.DestroyAsWritten | distntf/distauntf.hpp:355-360 | with the switch on and no tree ever built, the destructor deletes an unassigned `kdt` |
| Lifecycle.DimTreeThenDestroyFaults | distntf/distauntf.hpp:355-377 | `dim_tree(true)` then destruction: use after free at line 273, double free at line 278, delete of an unassigned pointer at line 358 |
| Lifecycle.DimTreeComputeDestroyFaults | distntf/distauntf.hpp:271-282 | with a run in between, the tree exists and the two array faults remain |
| Lifecycle.DimTreeToggledFaults | distntf/distauntf.hpp:193-196 | switching the tree on and off again makes the next MTTKRP write freed memory |
| Lifecycle.NeverOnIsSafe | distntf/distauntf.hpp:271-282 | without the dimension tree the engine as written has no memory fault over its lifetime |
| Lifecycle.DimTreeFixed | distntf/distauntf.hpp:368-377 | the corrected switch nulls the array when turned on and reallocates it when turned off, with no fault from a non-freed array |
| Lifecycle.RunFixedSound | distntf/distauntf.hpp:368-389 | the corrected engine keeps the array live exactly when the switch is off, the tree pointer assigned and no fault, after any calls |
| Lifecycle.FixedNeverFaults | distntf/distauntf.hpp:355-377 | the corrected engine has no memory fault over any lifetime |
| Lifecycle.FixedAgreesWhenNeverOn | distntf/distauntf.hpp:355-377 | on lifetimes that never turn the tree on, the corrected and the written engine agree |

## Left out

- Timing and reporting (`mpitic`/`mpitoc`, `time_stats`, `reportTime`, `generateReport`): diagnostics only.
- The local solver `LUC::update`: its output enters `DistAuntf.CommitMode` as a parameter.
- `Tensor::mttkrp`, `krp_leave_out_one`, `Tensor::norm` and `NCPFactors::distributed_normalize`/`lambda`/`trans`: their bodies are not part of this model. Their results are parameters with the shapes the engine gives them. The result of `krp_leave_out_one` is the `krp` parameter of `DistAuntf.DistMttkrp`, stored in `ncp_krp[m]`; with the dimension tree on, the caller passes the buffer's old value. `Tensor::norm` is taken to return the local squared norm, as the member `m_global_sqnorm_A` it feeds suggests.
- The dimension tree `KobyDimensionTree`: only whether it exists is tracked, in `Lifecycle`.
- Real MPI: blocking, deadlock, and how fibers and slices are formed. The communicators' members are parameters.
- DistAuntf.Construct: requires k ≥ 1 and every local extent `dims[i]` ≥ 1 (also part of `DistAuntf.Valid`, and assumed by `DistAuntf.InitialMode` and `DistAuntf.KrpRowsAreOtherModes`). The source does not check this. With a zero extent, `TENSOR_LOCAL_NUMEL / TENSOR_LOCAL_DIM[i]` at line 261 divides by zero, which is undefined behaviour rather than a rejected input.
- Collectives.AllGather, Collectives.ReduceScatter, Collectives.AllReduceSum and Exchange.GatherFactor: counts are unbounded naturals. The source passes them to MPI as 32-bit C `int`: `sendcnt`/`recvcnt` at lines 136-137, `recvmttkrpsize` at line 226, and `k * k` at line 89. A shard of 2³¹ elements or more would wrap to a negative count. That overflow is not modelled.
- IEEE double rounding, BLAS kernels, `std::sqrt` and random seeding: matrices hold exact reals, and the model returns the squared relative error.
- Memory leaks (an older `kdt` when `computeNTF` runs twice; the solver object): not tracked.
- The buffers other than `ncp_krp` in `freeMatrices`: each is freed once, by the destructor, so they have no fault to show.
- DistAuntf.UpdateGlobalGram: requires the regulariser vector to hold weights 2m and 2m + 1. When `regularizers` was never called, the source's read of `m_regularizers` fails Armadillo's bounds check (or reads past the end without it); that path is not modelled.
- Schedule.ComputeNtf: requires at least one mode. With zero modes the source's error estimate would index mode −1.
- ErrorEstimate.HadamardAllGramsIsAllGrams: stated per entry (i, j), with `global_gram`'s entry as a hypothesis, rather than for the whole matrix.
- Schedule: the version counters record which factor each buffer was computed from, not the values; the values are in `DistAuntf`.

## Findings

| source | as written | input that shows it | evidently intended | confidence | as-written member | corrected member |
|---|---|---|---|---|---|---|
| distntf/distauntf.hpp:226 | every reduce-scatter receive count is `ncp_local_mttkrp_t[m].n_cols`, the row count d of the shard | rank k = 2, d = 1: only element 0 of the 2-element local MTTKRP is written; the last entry keeps its old value | receive counts of k · d elements (`n_elem`) per member | high; not executed | DistAuntf.AsWrittenLeavesLastEntryStale | DistAuntf.DistMttkrp |
| distntf/distauntf.hpp:476-478 | the radicand is not clamped at zero before the square root | the formula alone: ‖A‖² = 1, ‖model‖² = 0, ⟨A, model⟩ = 1 gives −1. No tensor and model have those values, since in exact arithmetic the radicand is ‖A − model‖² / ‖A‖² ≥ 0. In doubles a near-perfect fit can round the numerator below zero, and `std::sqrt` then returns NaN | max(…, 0) as the comment at line 450 promises | medium; reachable only through rounding; not executed | ErrorEstimate.UnclampedRadicandCanBeNegative | ErrorEstimate.SquaredError |
| distntf/distauntf.hpp:371-376 | `dim_tree(true)` deletes `ncp_krp` without nulling it, so `freeMatrices` clears and deletes it again (lines 273, 278) | `dim_tree(true)`, then destruction | null the pointer after deleting and skip a null array | high; not executed | Lifecycle.DimTreeThenDestroyFaults | Lifecycle.FixedNeverFaults |
| distntf/distauntf.hpp:357-358 | the destructor deletes `kdt` whenever the switch is on, but only `computeNTF` assigns it (lines 386-388) | `dim_tree(true)` with no `computeNTF`, then destruction | initialise `kdt` to null in the constructor | high; not executed | Lifecycle.DestroyAsWritten | Lifecycle.FixedNeverFaults |
| distntf/distauntf.hpp:368-377 | switching the tree off after on leaves `ncp_krp` deleted, yet the next MTTKRP writes into it (line 195) | `dim_tree(true)`, `dim_tree(false)`, `computeNTF` with one iteration | reallocate the array when the switch goes off | medium; not executed | Lifecycle.DimTreeToggledFaults | Lifecycle.DimTreeFixed |
