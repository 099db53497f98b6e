/** One process's view of the distributed CP-ALS engine `DistAUNTF`: the per-mode
    buffers it allocates, the duals it keeps consistent, and its collective steps.
    The peers' contributions to a collective are parameters, listed in
    communicator-rank order, with this process's own buffer at index `me`. */
module DistAuntf {
  import opened Buffers
  import opened Results
  import opened Matrices
  import opened Collectives
  import Grams
  import Exchange

  /** Everything the engine keeps for one mode i. */
  datatype ModeBuffers = ModeBuffers(
    dim: nat,               // TENSOR_LOCAL_DIM[i]: the local tensor block's extent
    localDim: nat,          // m_factor_local_dims[i]: rows of this process's factor shard
    local: Matrix,          // m_local_ncp_factors.factor(i), localDim × k
    localT: Matrix,         // m_local_ncp_factors_t.factor(i), its transpose
    gathered: Matrix,       // m_gathered_ncp_factors.factor(i), dim × k
    gatheredT: Matrix,      // m_gathered_ncp_factors_t.factor(i), k × dim
    krp: Matrix,            // ncp_krp[i], one row per index combination of the other modes
    mttkrpT: Matrix,        // ncp_mttkrp_t[i], k × dim
    localMttkrpT: Matrix,   // ncp_local_mttkrp_t[i], k × localDim
    gram: Matrix)           // factor_global_grams[i], k × k

  datatype Engine = Engine(
    k: nat,                 // m_low_rank_k
    numel: nat,             // TENSOR_LOCAL_NUMEL
    modes: seq<ModeBuffers>,
    regs: seq<real>,        // m_regularizers: an (L2, L1) pair per mode
    lambda: seq<real>,      // the column weights of the last normalisation
    localGram: Matrix,      // factor_local_grams
    globalGram: Matrix,     // global_gram: the Hadamard product for the active mode
    sqNormA: real)          // m_global_sqnorm_A

  predicate Shaped(a: Matrix, rows: nat, cols: nat) {
    a.rows == rows && a.cols == cols
  }

  /** The buffers of one mode have the shapes `allocateMatrices` and the constructor give
      them, and both orientations of each factor agree. */
  predicate ModeValid(b: ModeBuffers, k: nat, numel: nat) {
    && b.dim > 0
    && Shaped(b.local, b.localDim, k) && b.localT == Transpose(b.local)
    && Shaped(b.gatheredT, k, b.dim) && b.gathered == Transpose(b.gatheredT)
    && b.krp.cols == k && b.krp.rows * b.dim == numel
    && Shaped(b.mttkrpT, k, b.dim)
    && Shaped(b.localMttkrpT, k, b.localDim)
    && Shaped(b.gram, k, k)
  }

  /** The engine's invariant. */
  predicate Valid(e: Engine) {
    && e.k > 0 && |e.lambda| == e.k
    && Shaped(e.localGram, e.k, e.k) && Shaped(e.globalGram, e.k, e.k)
    && forall i :: 0 <= i < |e.modes| ==> ModeValid(e.modes[i], e.k, e.numel)
  }

  /** Replacing one mode's buffers by valid ones keeps the engine valid. */
  lemma ValidAfterModeUpdate(e: Engine, m: nat, b: ModeBuffers)
    requires Valid(e) && m < |e.modes| && ModeValid(b, e.k, e.numel)
    ensures Valid(e.(modes := e.modes[m := b]))
  {
  }

  /** The global Grams of all modes, in mode order. */
  function GlobalGrams(e: Engine): (gs: seq<Matrix>)
    requires Valid(e)
    ensures |gs| == |e.modes| && Grams.AllSquare(gs, e.k)
    ensures forall i :: 0 <= i < |e.modes| ==> gs[i] == e.modes[i].gram
  {
    seq(|e.modes|, i requires 0 <= i < |e.modes| => e.modes[i].gram)
  }

  // ---- construction ----

  /** Π dims: the element count of the local tensor block. */
  function Numel(dims: seq<nat>): nat {
    if |dims| == 0 then 1 else Numel(dims[..|dims| - 1]) * dims[|dims| - 1]
  }

  /** Π_{j ≠ i} dims[j]: the index combinations of every mode but i. */
  function NumelExcept(dims: seq<nat>, i: nat): nat {
    if |dims| == 0 then 1
    else NumelExcept(dims[..|dims| - 1], i) * (if |dims| - 1 == i then 1 else dims[|dims| - 1])
  }

  lemma {:induction false} NumelSplit(dims: seq<nat>, i: nat)
    requires i < |dims|
    ensures Numel(dims) == NumelExcept(dims, i) * dims[i]
  {
    var n := |dims| - 1;
    if i < n {
      NumelSplit(dims[..n], i);
      assert Numel(dims) == NumelExcept(dims[..n], i) * dims[i] * dims[n];
    } else {
      NumelOutside(dims[..n], i);
    }
  }

  lemma {:induction false} NumelOutside(dims: seq<nat>, i: nat)
    requires i >= |dims|
    ensures NumelExcept(dims, i) == Numel(dims)
  {
    if |dims| > 0 {
      NumelOutside(dims[..|dims| - 1], i);
    }
  }

  /** `TENSOR_LOCAL_NUMEL / TENSOR_LOCAL_DIM[i]`, the row count of mode i's KRP buffer,
      is the number of index combinations of the other modes: the division is exact. */
  lemma KrpRowsAreOtherModes(dims: seq<nat>, i: nat)
    requires i < |dims| && dims[i] > 0
    ensures Numel(dims) / dims[i] == NumelExcept(dims, i)
    ensures Numel(dims) % dims[i] == 0
  {
    NumelSplit(dims, i);
    DivModUnique(Numel(dims), dims[i], NumelExcept(dims, i), 0);
  }

  /** The buffers `allocateMatrices` and the constructor give mode i: the factor shard
      `init` (after the constructor's normalisation) with its transpose, the gathered
      factor with its transpose, and zeroed KRP, MTTKRP and Gram buffers. */
  function InitialMode(k: nat, dims: seq<nat>, i: nat, localDim: nat, init: Matrix, gathered: Matrix): (b: ModeBuffers)
    requires i < |dims| && dims[i] > 0
    requires Shaped(init, localDim, k) && Shaped(gathered, dims[i], k)
    ensures ModeValid(b, k, Numel(dims))
    ensures b.dim == dims[i] && b.localDim == localDim
    ensures b.local == init && b.gathered == gathered
    ensures b.krp == Zeros(NumelExcept(dims, i), k)
    ensures b.mttkrpT == Zeros(k, dims[i]) && b.localMttkrpT == Zeros(k, localDim) && b.gram == Zeros(k, k)
  {
    KrpRowsAreOtherModes(dims, i);
    NumelSplit(dims, i);
    TransposeInvolution(gathered);
    ModeBuffers(dims[i], localDim, init, Transpose(init), gathered, Transpose(gathered),
                Zeros(Numel(dims) / dims[i], k), Zeros(k, dims[i]),
                Zeros(init.cols, init.rows), Zeros(k, k))
  }

  /** The constructor together with `allocateMatrices`. `init` is the rank-seeded random
      fill after `distributed_normalize` (with weights `lambda`), `gathered` the initial
      gathered factors, and `sqNorms` every process's local squared tensor norm in rank
      order. The engine starts valid, with no regularisers, `global_gram` all ones and
      the all-reduced squared norm. */
  function Construct(k: nat, dims: seq<nat>, localDims: seq<nat>, init: seq<Matrix>, lambda: seq<real>,
                     gathered: seq<Matrix>, sqNorms: seq<real>): (e: Engine)
    requires k > 0 && |localDims| == |dims| && |init| == |dims| && |gathered| == |dims| && |lambda| == k
    requires forall i :: 0 <= i < |dims| ==> dims[i] > 0
    requires forall i :: 0 <= i < |dims| ==> Shaped(init[i], localDims[i], k) && Shaped(gathered[i], dims[i], k)
    ensures Valid(e) && |e.modes| == |dims| && e.numel == Numel(dims)
    ensures forall i :: 0 <= i < |dims| ==>
              e.modes[i] == InitialMode(k, dims, i, localDims[i], init[i], gathered[i])
    ensures e.regs == [] && e.lambda == lambda
    ensures e.localGram == Zeros(k, k) && e.globalGram == Ones(k, k)
    ensures e.sqNormA == Sum(sqNorms)
  {
    Engine(k, Numel(dims),
           seq(|dims|, i requires 0 <= i < |dims| => InitialMode(k, dims, i, localDims[i], init[i], gathered[i])),
           [], lambda, Zeros(k, k), Ones(k, k), AllReduceScalar(sqNorms))
  }

  /** `regularizers(i_regs)`: only the weights change. */
  function SetRegularizers(e: Engine, regs: seq<real>): (r: Engine)
    requires Valid(e)
    ensures Valid(r) && r.regs == regs
    ensures r.(regs := e.regs) == e
  {
    e.(regs := regs)
  }

  // ---- update_global_gram ----

  /** `update_global_gram(m)`: the local Gram of this process's shard, all-reduced over
      every process (`world`, rank order, this process at `me`), regularised with the
      mode's pair of weights. Only Gram slot m and the scratch local Gram change; the new
      slot is `Hᵀ H` of the whole stacked factor plus the regularisation, and symmetric. */
  function UpdateGlobalGram(e: Engine, m: nat, world: seq<Matrix>, me: nat): (r: Engine)
    requires Valid(e) && m < |e.modes| && 2 * m + 1 < |e.regs|
    requires me < |world| && world[me] == e.modes[m].local && Grams.RankK(world, e.k)
    ensures Valid(r) && |r.modes| == |e.modes|
    ensures r == e.(localGram := Gram(e.modes[m].local),
                    modes := e.modes[m := e.modes[m].(gram := r.modes[m].gram)])
    ensures forall i: nat, j: nat :: i < e.k && j < e.k ==>
              At(r.modes[m].gram, i, j) == At(Gram(Grams.Stack(world, e.k)), i, j)
                                          + (if i == j then Grams.L2Shift(e.regs[2 * m]) else 0.0)
                                          + Grams.L1Shift(e.regs[2 * m + 1])
    ensures Symmetric(r.modes[m].gram)
  {
    var g := Grams.GlobalGram(world, e.k, e.regs[2 * m], e.regs[2 * m + 1]);
    StackedGramEntries(world, e.k);
    var b := e.modes[m].(gram := g);
    ValidAfterModeUpdate(e, m, b);
    e.(localGram := Gram(e.modes[m].local), modes := e.modes[m := b])
  }

  lemma StackedGramEntries(world: seq<Matrix>, k: nat)
    requires Grams.RankK(world, k)
    ensures forall i: nat, j: nat :: i < k && j < k ==> Grams.GramSum(world, i, j) == At(Gram(Grams.Stack(world, k)), i, j)
  {
    forall i: nat, j: nat | i < k && j < k
      ensures Grams.GramSum(world, i, j) == At(Gram(Grams.Stack(world, k)), i, j)
    {
      Grams.GramSumIsGramOfStack(world, k, i, j);
    }
  }

  // ---- gram_hadamard ----

  /** `gram_hadamard(m)`: `global_gram` becomes the entry-wise product of every mode's
      global Gram except mode m's, and nothing else changes. */
  method CombineGrams(e: Engine, m: nat) returns (r: Engine)
    requires Valid(e) && m < |e.modes|
    ensures Valid(r) && r == e.(globalGram := r.globalGram)
    ensures forall i: nat, j: nat :: i < e.k && j < e.k ==>
              At(r.globalGram, i, j) == Grams.EntryProductExcept(GlobalGrams(e), m, i, j)
  {
    var g := Grams.GramHadamard(GlobalGrams(e), m, e.k);
    r := e.(globalGram := g);
  }

  // ---- gather_ncp_factor ----

  /** `gather_ncp_factor(m)`: every member of mode m's fiber (`fiber`, fiber-rank order,
      this process at `me`) contributes its `local_t(m)`; the zeroed `gathered_t(m)`
      receives the shards as consecutive column blocks in fiber-rank order, and
      `gathered(m)` is rebuilt as its transpose. Only those two buffers change. It fails
      when a member's shard has another size or the blocks overflow the buffer. */
  function GatherNcpFactor(e: Engine, m: nat, fiber: seq<Matrix>, me: nat): (r: Result<Engine, CommFault>)
    requires Valid(e) && m < |e.modes|
    requires me < |fiber| && fiber[me] == e.modes[m].localT
    requires forall p :: 0 <= p < |fiber| ==> fiber[p].rows == e.k
    ensures r.Ok? <==> (forall p :: 0 <= p < |fiber| ==> fiber[p].cols == e.modes[m].localDim)
                       && |fiber| * e.modes[m].localDim <= e.modes[m].dim
    ensures r.Ok? ==> Valid(r.value) && |r.value.modes| == |e.modes|
    ensures r.Ok? ==> r.value == e.(modes := e.modes[m := e.modes[m].(gathered := r.value.modes[m].gathered,
                                                                        gatheredT := r.value.modes[m].gatheredT)])
    ensures r.Ok? ==> r.value.modes[m].gathered == Transpose(r.value.modes[m].gatheredT)
    ensures r.Ok? ==> Exchange.Tiled(r.value.modes[m].gatheredT, fiber, e.modes[m].localDim)
    ensures r.Ok? ==> var used := |fiber| * e.modes[m].localDim;
                      ColumnBlock(r.value.modes[m].gatheredT, used, e.modes[m].dim - used)
                        == Zeros(e.k, e.modes[m].dim - used)
  {
    var b := e.modes[m];
    var gt :- Exchange.GatherFactor(fiber, e.k, b.localDim, b.dim);
    var b' := b.(gatheredT := gt, gathered := Transpose(gt));
    ValidAfterModeUpdate(e, m, b');
    Ok(e.(modes := e.modes[m := b']))
  }

  // ---- distmttkrp ----

  /** The receive counts `distmttkrp` passes: one per slice member, each the column count
      of `ncp_local_mttkrp_t[m]`, i.e. the shard's row count d. */
  function RecvCountsAsWritten(e: Engine, m: nat, sliceSize: nat): (counts: seq<nat>)
    requires Valid(e) && m < |e.modes|
    ensures |counts| == sliceSize
    ensures forall q :: 0 <= q < sliceSize ==> counts[q] == e.modes[m].localDim
  {
    seq(sliceSize, _ => e.modes[m].localMttkrpT.cols)
  }

  /** The intended receive counts: the element count k · d of `ncp_local_mttkrp_t[m]`. */
  function RecvCounts(e: Engine, m: nat, sliceSize: nat): (counts: seq<nat>)
    requires Valid(e) && m < |e.modes|
    ensures |counts| == sliceSize
    ensures forall q :: 0 <= q < sliceSize ==> counts[q] == |Memory(e.modes[m].localMttkrpT)|
  {
    seq(sliceSize, _ => e.modes[m].localMttkrpT.rows * e.modes[m].localMttkrpT.cols)
  }

  /** The as-written count covers the whole k × d receive buffer exactly when k = 1 or
      the shard is empty. */
  lemma AsWrittenCountFillsOnlyRankOne(e: Engine, m: nat, sliceSize: nat, q: nat)
    requires Valid(e) && m < |e.modes| && q < sliceSize
    ensures RecvCountsAsWritten(e, m, sliceSize)[q] == |Memory(e.modes[m].localMttkrpT)|
            <==> e.k == 1 || e.modes[m].localDim == 0
  {
    var d := e.modes[m].localDim;
    if d > 0 && e.k != 1 {
      MulStrict(1, e.k, d);
    }
  }

  /** A KRP buffer of the shape `allocateMatrices` gives mode m: one row per index
      combination of the other modes, k columns. */
  predicate KrpFits(e: Engine, m: nat, krp: Matrix)
    requires m < |e.modes|
  {
    krp.cols == e.k && krp.rows * e.modes[m].dim == e.numel
  }

  /** `distmttkrp(m)` after the local kernel. `krp` is what `ncp_krp[m]` holds afterwards:
      the output of `krp_leave_out_one` with the dimension tree off (lines 195-196), the
      buffer's old value with it on. `ncp_mttkrp_t[m]` holds this process's contribution
      `slice[me]`; MPI_REDUCE_SCATTER over mode m's slice with `counts` sums the members'
      buffers and writes this process's piece at the start of `ncp_local_mttkrp_t[m]`,
      whose other elements keep their values. */
  function DistMttkrpWith(e: Engine, m: nat, krp: Matrix, counts: seq<nat>, slice: seq<Matrix>, me: nat): (r: Result<Engine, CommFault>)
    requires Valid(e) && m < |e.modes| && KrpFits(e, m, krp)
    requires me < |slice| && |counts| == |slice| && AllShaped(slice, e.k, e.modes[m].dim)
    ensures r.Ok? <==> Total(counts) <= e.k * e.modes[m].dim && counts[me] <= e.k * e.modes[m].localDim
    ensures r.Ok? ==> Valid(r.value) && |r.value.modes| == |e.modes|
    ensures r.Ok? ==> r.value == e.(modes := e.modes[m := e.modes[m].(krp := krp, mttkrpT := slice[me],
                                                                        localMttkrpT := r.value.modes[m].localMttkrpT)])
    ensures r.Ok? ==> Memory(r.value.modes[m].localMttkrpT)[..counts[me]]
                      == ReduceScatter(Memories(slice), counts).value[me]
    ensures r.Ok? ==> Memory(r.value.modes[m].localMttkrpT)[counts[me]..]
                      == Memory(e.modes[m].localMttkrpT)[counts[me]..]
    ensures r.Ok? ==> Exchange.ScatterInto(e.modes[m].localMttkrpT, slice, counts, me) == Ok(r.value.modes[m].localMttkrpT)
  {
    var b := e.modes[m];
    assert forall p :: 0 <= p < |slice| ==> |Memory(slice[p])| == e.k * b.dim;
    var lm :- Exchange.ScatterInto(b.localMttkrpT, slice, counts, me);
    var b' := b.(krp := krp, mttkrpT := slice[me], localMttkrpT := lm);
    ValidAfterModeUpdate(e, m, b');
    Ok(e.(modes := e.modes[m := b']))
  }

  /** `distmttkrp(m)` with the counts the source passes: it succeeds whenever the slice's
      short pieces fit, and only the first d elements of the local MTTKRP are written. */
  function DistMttkrpAsWritten(e: Engine, m: nat, krp: Matrix, slice: seq<Matrix>, me: nat): (r: Result<Engine, CommFault>)
    requires Valid(e) && m < |e.modes| && KrpFits(e, m, krp)
    requires me < |slice| && AllShaped(slice, e.k, e.modes[m].dim)
    ensures r.Ok? <==> |slice| * e.modes[m].localDim <= e.k * e.modes[m].dim
    ensures r.Ok? ==> Valid(r.value) && |r.value.modes| == |e.modes|
    ensures r.Ok? ==> r.value.modes[m].krp == krp && r.value.modes[m].mttkrpT == slice[me]
    ensures r.Ok? ==> e.modes[m].localDim <= |Memory(e.modes[m].localMttkrpT)|
                      && |Memory(r.value.modes[m].localMttkrpT)| == |Memory(e.modes[m].localMttkrpT)|
                      && Memory(r.value.modes[m].localMttkrpT)[e.modes[m].localDim..]
                         == Memory(e.modes[m].localMttkrpT)[e.modes[m].localDim..]
  {
    var d := e.modes[m].localDim;
    var counts := RecvCountsAsWritten(e, m, |slice|);
    TotalUniform(counts, d);
    assert counts[me] == d;
    MulMonotone(1, e.k, d);
    assert d <= e.k * d;
    DistMttkrpWith(e, m, krp, counts, slice, me)
  }

  /** `distmttkrp(m)` with element counts: when the slice's shards tile the mode
      (|slice| · d ≤ local extent), this process's `local_mttkrp_t(m)` is exactly column
      block `me` of the slice-wide sum of the members' MTTKRPs. */
  function DistMttkrp(e: Engine, m: nat, krp: Matrix, slice: seq<Matrix>, me: nat): (r: Result<Engine, CommFault>)
    requires Valid(e) && m < |e.modes| && KrpFits(e, m, krp)
    requires me < |slice| && AllShaped(slice, e.k, e.modes[m].dim)
    ensures r.Ok? <==> |slice| * e.modes[m].localDim <= e.modes[m].dim
    ensures r.Ok? ==> Valid(r.value) && |r.value.modes| == |e.modes|
    ensures r.Ok? ==> r.value == e.(modes := e.modes[m := e.modes[m].(krp := krp, mttkrpT := slice[me],
                                                                        localMttkrpT := r.value.modes[m].localMttkrpT)])
    ensures r.Ok? ==> var d := e.modes[m].localDim;
              0 <= me * d && me * d + d <= e.modes[m].dim &&
              r.value.modes[m].localMttkrpT == ColumnBlock(SumAll(slice, e.k, e.modes[m].dim), me * d, d)
  {
    var counts := RecvCounts(e, m, |slice|);
    ElementCountsFit(e, m, |slice|, me);
    var r := DistMttkrpWith(e, m, krp, counts, slice, me);
    if r.Ok? then
      OwnedMttkrp(e, m, krp, slice, me, r.value);
      r
    else
      r
  }

  /** After the reduce-scatter with the element counts, this process's local MTTKRP is its
      column block of the slice's sum. */
  lemma OwnedMttkrp(e: Engine, m: nat, krp: Matrix, slice: seq<Matrix>, me: nat, e': Engine)
    requires Valid(e) && m < |e.modes| && KrpFits(e, m, krp)
    requires me < |slice| && AllShaped(slice, e.k, e.modes[m].dim)
    requires DistMttkrpWith(e, m, krp, RecvCounts(e, m, |slice|), slice, me) == Ok(e')
    ensures m < |e'.modes|
    ensures var d := e.modes[m].localDim;
            0 <= me * d && me * d + d <= e.modes[m].dim &&
            e'.modes[m].localMttkrpT == ColumnBlock(SumAll(slice, e.k, e.modes[m].dim), me * d, d)
  {
    var b := e.modes[m];
    Exchange.OwnedBlock(b.localMttkrpT, slice, RecvCounts(e, m, |slice|), me, b.dim, e'.modes[m].localMttkrpT);
  }

  /** The element counts pass the reduce-scatter's checks exactly when the slice's shards
      fit in the mode's local extent. */
  lemma ElementCountsFit(e: Engine, m: nat, sliceSize: nat, me: nat)
    requires Valid(e) && m < |e.modes| && me < sliceSize
    ensures var counts := RecvCounts(e, m, sliceSize);
            Total(counts) <= e.k * e.modes[m].dim && counts[me] <= e.k * e.modes[m].localDim
            <==> sliceSize * e.modes[m].localDim <= e.modes[m].dim
  {
    var k, d := e.k, e.modes[m].localDim;
    var counts := RecvCounts(e, m, sliceSize);
    assert counts[me] == k * d;
    TotalUniform(counts, k * d);
    ScaledFit(sliceSize, d, k, e.modes[m].dim);
  }

  /** With rank k ≥ 2 and a non-empty shard, the as-written reduce-scatter leaves the last
      entry of the local MTTKRP at its previous value, where the element-count version
      stores the slice-wide sum there. */
  lemma AsWrittenLeavesLastEntryStale(e: Engine, m: nat, krp: Matrix, slice: seq<Matrix>, me: nat)
    requires Valid(e) && m < |e.modes| && KrpFits(e, m, krp) && me < |slice| && AllShaped(slice, e.k, e.modes[m].dim)
    requires e.k >= 2 && e.modes[m].localDim >= 1
    requires DistMttkrpAsWritten(e, m, krp, slice, me).Ok?
    ensures var d := e.modes[m].localDim;
            At(DistMttkrpAsWritten(e, m, krp, slice, me).value.modes[m].localMttkrpT, e.k - 1, d - 1)
            == At(e.modes[m].localMttkrpT, e.k - 1, d - 1)
  {
    var k, d := e.k, e.modes[m].localDim;
    var before := e.modes[m].localMttkrpT;
    var after := DistMttkrpAsWritten(e, m, krp, slice, me).value.modes[m].localMttkrpT;
    assert Shaped(after, k, d) && Shaped(before, k, d);
    var n := StaleOffset(k, d);
    MemoryAt(before, k - 1, d - 1);
    MemoryAt(after, k - 1, d - 1);
    assert Memory(after)[d..][n - d] == Memory(before)[d..][n - d];
  }

  /** The last element of a k × d buffer, at offset n, lies past its first d elements
      when k ≥ 2. */
  lemma StaleOffset(k: nat, d: nat) returns (n: nat)
    requires k >= 2 && d >= 1
    ensures n == (d - 1) * k + (k - 1)
    ensures d <= n < k * d
  {
    Distribute(d, 1, k);
    MulMonotone(2, k, d);
    MulMonotone(0, d - 1, k);
    n := (d - 1) * k + (k - 1);
  }

  // ---- one mode update of computeNTF ----

  /** The writes after the local update of mode m: the solver's output, normalised by
      `distributed_normalize` into `normalized` (d × k) with weights `lambda`, becomes
      `local(m)`, and its transpose `local_t(m)`. */
  function SetFactor(e: Engine, m: nat, normalized: Matrix, lambda: seq<real>): (r: Engine)
    requires Valid(e) && m < |e.modes|
    requires Shaped(normalized, e.modes[m].localDim, e.k) && |lambda| == e.k
    ensures Valid(r) && |r.modes| == |e.modes|
    ensures r.modes[m].local == normalized && r.modes[m].localT == Transpose(normalized)
    ensures r == e.(lambda := lambda, modes := e.modes[m := e.modes[m].(local := normalized, localT := r.modes[m].localT)])
  {
    var b := e.modes[m].(local := normalized, localT := Transpose(normalized));
    ValidAfterModeUpdate(e, m, b);
    e.(lambda := lambda, modes := e.modes[m := b])
  }

  /** Lines 13 to 15 of the algorithm for mode m: install the new factor, refresh its
      global Gram and re-gather it. Both orientations of every factor still agree, and
      mode m's Gram and gathered factor are those of the new factor. */
  function CommitMode(e: Engine, m: nat, normalized: Matrix, lambda: seq<real>,
                      world: seq<Matrix>, fiber: seq<Matrix>, me: nat, fiberMe: nat): (r: Result<Engine, CommFault>)
    requires Valid(e) && m < |e.modes| && 2 * m + 1 < |e.regs|
    requires Shaped(normalized, e.modes[m].localDim, e.k) && |lambda| == e.k
    requires me < |world| && world[me] == normalized && Grams.RankK(world, e.k)
    requires fiberMe < |fiber| && fiber[fiberMe] == Transpose(normalized)
    requires forall p :: 0 <= p < |fiber| ==> fiber[p].rows == e.k
    ensures r.Ok? <==> (forall p :: 0 <= p < |fiber| ==> fiber[p].cols == e.modes[m].localDim)
                       && |fiber| * e.modes[m].localDim <= e.modes[m].dim
    ensures r.Ok? ==> Valid(r.value) && |r.value.modes| == |e.modes|
    ensures r.Ok? ==> r.value.modes[m].local == normalized && r.value.lambda == lambda
    ensures r.Ok? ==> r.value.modes[m].gram == Grams.GlobalGram(world, e.k, e.regs[2 * m], e.regs[2 * m + 1])
    ensures r.Ok? ==> Exchange.Tiled(r.value.modes[m].gatheredT, fiber, e.modes[m].localDim)
    ensures r.Ok? ==> forall i :: 0 <= i < |e.modes| && i != m ==> r.value.modes[i] == e.modes[i]
  {
    var e1 := SetFactor(e, m, normalized, lambda);
    var e2 := UpdateGlobalGram(e1, m, world, me);
    InstalledFactor(e, m, normalized, lambda, world, me);
    var e3 :- GatherNcpFactor(e2, m, fiber, fiberMe);
    GatherKeepsRest(e2, e3, m);
    Ok(e3)
  }

  /** Rebuilding mode m's gathered buffers leaves everything else as it was. */
  lemma GatherKeepsRest(e2: Engine, e3: Engine, m: nat)
    requires m < |e2.modes| && m < |e3.modes|
    requires e3 == e2.(modes := e2.modes[m := e2.modes[m].(gathered := e3.modes[m].gathered,
                                                           gatheredT := e3.modes[m].gatheredT)])
    ensures |e3.modes| == |e2.modes| && e3.lambda == e2.lambda
    ensures e3.modes[m].local == e2.modes[m].local && e3.modes[m].gram == e2.modes[m].gram
    ensures forall i :: 0 <= i < |e2.modes| && i != m ==> e3.modes[i] == e2.modes[i]
  {
  }

  /** After `SetFactor` and `UpdateGlobalGram`, mode m holds the new factor, both its
      orientations and its new Gram, keeps its extents, and no other mode changed. */
  lemma InstalledFactor(e: Engine, m: nat, normalized: Matrix, lambda: seq<real>, world: seq<Matrix>, me: nat)
    requires Valid(e) && m < |e.modes| && 2 * m + 1 < |e.regs|
    requires Shaped(normalized, e.modes[m].localDim, e.k) && |lambda| == e.k
    requires me < |world| && world[me] == normalized && Grams.RankK(world, e.k)
    ensures var e2 := UpdateGlobalGram(SetFactor(e, m, normalized, lambda), m, world, me);
            && e2.k == e.k && e2.lambda == lambda && e2.regs == e.regs
            && e2.modes[m].local == normalized && e2.modes[m].localT == Transpose(normalized)
            && e2.modes[m].localDim == e.modes[m].localDim && e2.modes[m].dim == e.modes[m].dim
            && e2.modes[m].gram == Grams.GlobalGram(world, e.k, e.regs[2 * m], e.regs[2 * m + 1])
            && forall i :: 0 <= i < |e.modes| && i != m ==> e2.modes[i] == e.modes[i]
  {
    var e1 := SetFactor(e, m, normalized, lambda);
    var e2 := UpdateGlobalGram(e1, m, world, me);
    assert e2.modes[m] == e.modes[m].(local := normalized, localT := Transpose(normalized), gram := e2.modes[m].gram);
  }
}
