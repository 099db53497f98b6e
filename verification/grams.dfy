/** Gram-matrix algebra of the engine: regularisation (`applyReg`), the all-reduced
    global Gram of one mode (`update_global_gram`) and the Hadamard product of the
    other modes' Grams (`gram_hadamard`). */
module Grams {
  import opened Buffers
  import opened Results
  import opened Matrices
  import Collectives

  /** The amount L2 regularisation adds to a diagonal entry. */
  function L2Shift(l2: real): real {
    if l2 > 0.0 then 2.0 * l2 else 0.0
  }

  /** The amount L1 regularisation adds to every entry. */
  function L1Shift(l1: real): real {
    if l1 > 0.0 then 2.0 * l1 else 0.0
  }

  /** `applyReg`: a positive L2 weight adds `2·l2·I`, then a positive L1 weight adds
      `2·l1·J` (J all ones); non-positive weights are ignored. */
  function ApplyReg(l2: real, l1: real, g: Matrix): (r: Matrix)
    requires g.rows == g.cols
    ensures SameShape(r, g)
    ensures forall i: nat :: i < g.rows ==> At(r, i, i) == At(g, i, i) + L2Shift(l2) + L1Shift(l1)
    ensures forall i: nat, j: nat :: i < g.rows && j < g.rows && i != j ==> At(r, i, j) == At(g, i, j) + L1Shift(l1)
    ensures l2 <= 0.0 && l1 <= 0.0 ==> r == g
    ensures Symmetric(g) ==> Symmetric(r)
  {
    var withL2 := if l2 > 0.0 then Add(g, Scale(2.0 * l2, Identity(g.rows))) else g;
    if l1 > 0.0 then Add(withL2, Scale(2.0 * l1, Ones(g.rows, g.rows))) else withL2
  }

  /** Σ_p (xs[p]ᵀ xs[p])(i, j): entry (i, j) of the local Grams summed over processes. */
  function GramSum(xs: seq<Matrix>, i: nat, j: nat): real
    requires forall p :: 0 <= p < |xs| ==> i < xs[p].cols && j < xs[p].cols
  {
    if |xs| == 0 then 0.0
    else GramSum(xs[..|xs| - 1], i, j) + ColumnDot(xs[|xs| - 1], i, j, xs[|xs| - 1].rows)
  }

  /** Every matrix has `k` columns. */
  predicate RankK(xs: seq<Matrix>, k: nat) {
    forall p :: 0 <= p < |xs| ==> xs[p].cols == k
  }

  function GramBuffers(xs: seq<Matrix>, k: nat): (bufs: seq<Buffer>)
    requires RankK(xs, k)
    ensures |bufs| == |xs| && Collectives.AllHold(bufs, k * k)
  {
    seq(|xs|, p requires 0 <= p < |xs| => Memory(Gram(xs[p])))
  }

  lemma {:induction false} GramBuffersSum(xs: seq<Matrix>, k: nat, i: nat, j: nat)
    requires RankK(xs, k) && i < k && j < k
    ensures j * k + i < k * k
    ensures SumAt(GramBuffers(xs, k), j * k + i) == GramSum(xs, i, j)
  {
    BlockEnd(j, k, k);
    if |xs| > 0 {
      var n := |xs| - 1;
      assert GramBuffers(xs, k)[..n] == GramBuffers(xs[..n], k);
      GramBuffersSum(xs[..n], k, i, j);
      MemoryAt(Gram(xs[n]), i, j);
    }
  }

  /** The all-reduced (MPI_SUM over every process) sum of the local Grams `xᵀx`,
      as the k × k matrix it lands in. */
  function ReducedGram(xs: seq<Matrix>, k: nat): (r: Matrix)
    requires RankK(xs, k)
    ensures r.rows == k && r.cols == k
    ensures forall i: nat, j: nat :: i < k && j < k ==> At(r, i, j) == GramSum(xs, i, j)
  {
    var reduced := Collectives.AllReduceSum(GramBuffers(xs, k), k * k);
    ReducedGramEntries(xs, k);
    FromMemory(k, k, reduced.value)
  }

  lemma ReducedGramEntries(xs: seq<Matrix>, k: nat)
    requires RankK(xs, k)
    ensures Collectives.AllReduceSum(GramBuffers(xs, k), k * k).Ok?
    ensures forall i: nat, j: nat :: i < k && j < k ==>
              At(FromMemory(k, k, Collectives.AllReduceSum(GramBuffers(xs, k), k * k).value), i, j) == GramSum(xs, i, j)
  {
    var reduced := Collectives.AllReduceSum(GramBuffers(xs, k), k * k).value;
    forall i: nat, j: nat | i < k && j < k
      ensures At(FromMemory(k, k, reduced), i, j) == GramSum(xs, i, j)
    {
      ReducedGramEntry(xs, k, reduced, i, j);
    }
  }

  lemma ReducedGramEntry(xs: seq<Matrix>, k: nat, reduced: Buffer, i: nat, j: nat)
    requires RankK(xs, k) && i < k && j < k
    requires Collectives.AllReduceSum(GramBuffers(xs, k), k * k) == Ok(reduced)
    ensures |reduced| == k * k
    ensures At(FromMemory(k, k, reduced), i, j) == GramSum(xs, i, j)
  {
    FromMemoryAt(k, k, reduced, i, j);
    GramBuffersSum(xs, k, i, j);
  }

  lemma {:induction false} GramSumSymmetric(xs: seq<Matrix>, i: nat, j: nat)
    requires forall p :: 0 <= p < |xs| ==> i < xs[p].cols && j < xs[p].cols
    ensures GramSum(xs, i, j) == GramSum(xs, j, i)
  {
    if |xs| > 0 {
      GramSumSymmetric(xs[..|xs| - 1], i, j);
      ColumnDotSymmetric(xs[|xs| - 1], i, j, xs[|xs| - 1].rows);
    }
  }

  /** `update_global_gram`'s value for one mode: the sum over all processes of their
      local `xᵀx`, regularised with that mode's (L2, L1) weights. It is symmetric. */
  function GlobalGram(xs: seq<Matrix>, k: nat, l2: real, l1: real): (r: Matrix)
    requires RankK(xs, k)
    ensures r.rows == k && r.cols == k
    ensures forall i: nat :: i < k ==> At(r, i, i) == GramSum(xs, i, i) + L2Shift(l2) + L1Shift(l1)
    ensures forall i: nat, j: nat :: i < k && j < k && i != j ==> At(r, i, j) == GramSum(xs, i, j) + L1Shift(l1)
    ensures Symmetric(r)
  {
    var g := ReducedGram(xs, k);
    forall i: nat, j: nat | i < k && j < k
      ensures At(g, i, j) == At(g, j, i)
    {
      GramSumSymmetric(xs, i, j);
    }
    ApplyReg(l2, l1, g)
  }

  // ---- The Gram of the whole distributed factor ----

  /** Σ_p rows of xs[p]. */
  function TotalRows(xs: seq<Matrix>): nat {
    if |xs| == 0 then 0 else TotalRows(xs[..|xs| - 1]) + xs[|xs| - 1].rows
  }

  /** Column j of every shard, stacked in order. */
  function StackedColumn(xs: seq<Matrix>, j: nat): (c: seq<real>)
    requires forall p :: 0 <= p < |xs| ==> j < xs[p].cols
    ensures |c| == TotalRows(xs)
  {
    if |xs| == 0 then [] else StackedColumn(xs[..|xs| - 1], j) + xs[|xs| - 1].columns[j]
  }

  /** The shards stacked on top of each other: the whole factor matrix whose row
      blocks the processes own. */
  function Stack(xs: seq<Matrix>, k: nat): (r: Matrix)
    requires RankK(xs, k)
    ensures r.rows == TotalRows(xs) && r.cols == k
  {
    Mat(TotalRows(xs), k, seq(k, (j: int) requires 0 <= j < k => StackedColumn(xs, j)))
  }

  lemma {:induction false} ColumnDotIsDotPrefix(x: Matrix, i: nat, j: nat, n: nat)
    requires i < x.cols && j < x.cols && n <= x.rows
    ensures ColumnDot(x, i, j, n) == DotPrefix(x.columns[i], x.columns[j], n)
  {
    if n > 0 {
      ColumnDotIsDotPrefix(x, i, j, n - 1);
    }
  }

  /** The dot product of two concatenations splits into the two parts. */
  lemma {:induction false} DotPrefixAppend(a1: Buffer, a2: Buffer, b1: Buffer, b2: Buffer, n: nat)
    requires |a1| == |b1| && n <= |a2| && n <= |b2|
    ensures DotPrefix(a1 + a2, b1 + b2, |a1| + n) == DotPrefix(a1, b1, |a1|) + DotPrefix(a2, b2, n)
  {
    if n == 0 {
      DotPrefixPrefix(a1, b1, a1 + a2, b1 + b2, |a1|);
    } else {
      DotPrefixAppend(a1, a2, b1, b2, n - 1);
    }
  }

  lemma {:induction false} DotPrefixPrefix(a: Buffer, b: Buffer, a': Buffer, b': Buffer, n: nat)
    requires n <= |a| && n <= |b| && n <= |a'| && n <= |b'|
    requires a[..n] == a'[..n] && b[..n] == b'[..n]
    ensures DotPrefix(a, b, n) == DotPrefix(a', b', n)
  {
    if n > 0 {
      assert a[n - 1] == a[..n][n - 1] == a'[n - 1];
      assert b[n - 1] == b[..n][n - 1] == b'[n - 1];
      assert a[..n - 1] == a[..n][..n - 1];
      assert a'[..n - 1] == a'[..n][..n - 1];
      assert b[..n - 1] == b[..n][..n - 1];
      assert b'[..n - 1] == b'[..n][..n - 1];
      DotPrefixPrefix(a, b, a', b', n - 1);
    }
  }

  /** The summed local Grams are the Gram of the stacked factor: the all-reduce in
      `update_global_gram` computes `Hᵀ H` for the whole distributed factor H. */
  lemma {:induction false} GramSumIsGramOfStack(xs: seq<Matrix>, k: nat, i: nat, j: nat)
    requires RankK(xs, k) && i < k && j < k
    ensures GramSum(xs, i, j) == At(Gram(Stack(xs, k)), i, j)
  {
    var s := Stack(xs, k);
    ColumnDotIsDotPrefix(s, i, j, s.rows);
    if |xs| == 0 {
    } else {
      var n := |xs| - 1;
      var front := xs[..n];
      var last := xs[n];
      GramSumIsGramOfStack(front, k, i, j);
      var f := Stack(front, k);
      ColumnDotIsDotPrefix(f, i, j, f.rows);
      ColumnDotIsDotPrefix(last, i, j, last.rows);
      DotPrefixAppend(StackedColumn(front, i), last.columns[i],
                      StackedColumn(front, j), last.columns[j], last.rows);
    }
  }

  /** The reduced Gram (before regularisation) is `Hᵀ H` of the stacked factor. */
  lemma ReducedGramIsGramOfStack(xs: seq<Matrix>, k: nat)
    requires RankK(xs, k)
    ensures ReducedGram(xs, k) == Gram(Stack(xs, k))
  {
    forall i: nat, j: nat | i < k && j < k
      ensures At(ReducedGram(xs, k), i, j) == At(Gram(Stack(xs, k)), i, j)
    {
      GramSumIsGramOfStack(xs, k, i, j);
    }
    Extensionality(ReducedGram(xs, k), Gram(Stack(xs, k)));
  }

  // ---- Hadamard product of the other modes' Grams ----

  /** Every matrix is k × k. */
  predicate AllSquare(gs: seq<Matrix>, k: nat) {
    forall l :: 0 <= l < |gs| ==> gs[l].rows == k && gs[l].cols == k
  }

  /** Π_{l ≠ m} gs[l](i, j): the reference product of entry (i, j) over every slot but m
      (every slot when m is outside 0..|gs|). */
  function EntryProductExcept(gs: seq<Matrix>, m: int, i: nat, j: nat): real
    requires forall l :: 0 <= l < |gs| ==> i < gs[l].rows && j < gs[l].cols
  {
    if |gs| == 0 then 1.0
    else EntryProductExcept(gs[..|gs| - 1], m, i, j) * (if |gs| - 1 == m then 1.0 else At(gs[|gs| - 1], i, j))
  }

  /** `gram_hadamard`: starting from all ones, multiply in entry-wise every slot but m. */
  method GramHadamard(gs: seq<Matrix>, m: nat, k: nat) returns (g: Matrix)
    requires AllSquare(gs, k)
    ensures g.rows == k && g.cols == k
    ensures forall i: nat, j: nat :: i < k && j < k ==> At(g, i, j) == EntryProductExcept(gs, m, i, j)
    ensures |gs| == 1 && m == 0 ==> g == Ones(k, k)
    ensures (forall l :: 0 <= l < |gs| ==> Symmetric(gs[l])) ==> Symmetric(g)
  {
    g := Ones(k, k);
    for l := 0 to |gs|
      invariant g.rows == k && g.cols == k
      invariant forall i: nat, j: nat :: i < k && j < k ==> At(g, i, j) == EntryProductExcept(gs[..l], m, i, j)
    {
      assert gs[..l + 1][..l] == gs[..l];
      if l != m {
        g := Hadamard(g, gs[l]);
      }
    }
    assert gs[..|gs|] == gs;
    if |gs| == 1 && m == 0 {
      Extensionality(g, Ones(k, k));
    }
    if forall l :: 0 <= l < |gs| ==> Symmetric(gs[l]) {
      forall i: nat, j: nat | i < k && j < k
        ensures At(g, i, j) == At(g, j, i)
      {
        ProductSymmetric(gs, m, k, i, j);
      }
    }
  }

  lemma {:induction false} ProductSymmetric(gs: seq<Matrix>, m: int, k: nat, i: nat, j: nat)
    requires AllSquare(gs, k) && i < k && j < k
    requires forall l :: 0 <= l < |gs| ==> Symmetric(gs[l])
    ensures EntryProductExcept(gs, m, i, j) == EntryProductExcept(gs, m, j, i)
  {
    if |gs| > 0 {
      ProductSymmetric(gs[..|gs| - 1], m, k, i, j);
    }
  }

  /** The combined Gram for mode m does not read slot m: replacing it changes nothing. */
  lemma {:induction false} ProductIgnoresExcludedSlot(gs: seq<Matrix>, m: nat, x: Matrix, k: nat, i: nat, j: nat)
    requires AllSquare(gs, k) && m < |gs| && x.rows == k && x.cols == k && i < k && j < k
    ensures EntryProductExcept(gs[m := x], m, i, j) == EntryProductExcept(gs, m, i, j)
  {
    var n := |gs| - 1;
    if m < n {
      assert gs[m := x][..n] == gs[..n][m := x];
      ProductIgnoresExcludedSlot(gs[..n], m, x, k, i, j);
    } else {
      assert gs[m := x][..n] == gs[..n];
    }
  }

  /** Multiplying the combined Gram for mode m by slot m gives the product of all slots. */
  lemma {:induction false} ProductWithExcludedSlot(gs: seq<Matrix>, m: nat, k: nat, i: nat, j: nat)
    requires AllSquare(gs, k) && m < |gs| && i < k && j < k
    ensures EntryProductExcept(gs, m, i, j) * At(gs[m], i, j) == EntryProductExcept(gs, -1, i, j)
  {
    var n := |gs| - 1;
    if m < n {
      ProductWithExcludedSlot(gs[..n], m, k, i, j);
    } else {
      assert EntryProductExcept(gs[..n], m, i, j) == EntryProductExcept(gs[..n], -1, i, j) by {
        ProductOutsideRange(gs[..n], m, k, i, j);
      }
    }
  }

  lemma {:induction false} ProductOutsideRange(gs: seq<Matrix>, m: int, k: nat, i: nat, j: nat)
    requires AllSquare(gs, k) && i < k && j < k && (m < 0 || m >= |gs|)
    ensures EntryProductExcept(gs, m, i, j) == EntryProductExcept(gs, -1, i, j)
  {
    if |gs| > 0 {
      ProductOutsideRange(gs[..|gs| - 1], m, k, i, j);
    }
  }
}
