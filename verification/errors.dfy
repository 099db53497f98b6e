/** The relative-error estimate `computeError` reports after every iteration:
    ‖X − model‖² / ‖X‖² expanded as (‖X‖² + λᵀ (∘ all Grams) λ − 2 ⟨X, model⟩) / ‖X‖²,
    from quantities the engine already holds. The square root the source takes at the
    end is left out; the model returns the radicand. */
module ErrorEstimate {
  import opened Buffers
  import opened Results
  import opened Matrices
  import opened Collectives
  import Grams
  import opened DistAuntf

  datatype NumFault =
    | DivideByZero      // the tensor's squared norm is zero
    | NegativeRadicand  // the square root would be taken of a negative number

  /** Σ_{i < n} λ_i · H(i, j): entry j of the row vector λᵀ H. */
  function RowTimes(lambda: seq<real>, h: Matrix, j: nat, n: nat): real
    requires n <= |lambda| && n <= h.rows && j < h.cols
  {
    if n == 0 then 0.0 else RowTimes(lambda, h, j, n - 1) + lambda[n - 1] * At(h, n - 1, j)
  }

  /** Σ_{j < n} (λᵀ H)_j · λ_j. */
  function QuadPrefix(lambda: seq<real>, h: Matrix, n: nat): real
    requires |lambda| == h.rows && n <= |lambda| && n <= h.cols
  {
    if n == 0 then 0.0 else QuadPrefix(lambda, h, n - 1) + RowTimes(lambda, h, n - 1, |lambda|) * lambda[n - 1]
  }

  /** λᵀ H λ, lines 455-456: the row vector λᵀ H dotted with λ. It is the model's squared
      norm when H is the Hadamard product of all Grams. */
  function QuadForm(lambda: seq<real>, h: Matrix): real
    requires h.rows == |lambda| && h.cols == |lambda|
  {
    QuadPrefix(lambda, h, |lambda|)
  }

  /** With H all ones, every entry of λᵀ H is Σ λ. */
  lemma {:induction false} RowTimesOnes(lambda: seq<real>, h: Matrix, j: nat, n: nat)
    requires n <= |lambda| && n <= h.rows && j < h.cols
    requires forall i :: 0 <= i < n ==> At(h, i, j) == 1.0
    ensures RowTimes(lambda, h, j, n) == Sum(lambda[..n])
  {
    if n > 0 {
      RowTimesOnes(lambda, h, j, n - 1);
      assert lambda[..n][..n - 1] == lambda[..n - 1];
    }
  }

  lemma {:induction false} QuadPrefixOnes(lambda: seq<real>, n: nat)
    requires n <= |lambda|
    ensures QuadPrefix(lambda, Ones(|lambda|, |lambda|), n) == Sum(lambda) * Sum(lambda[..n])
  {
    var h := Ones(|lambda|, |lambda|);
    if n > 0 {
      QuadPrefixOnes(lambda, n - 1);
      RowTimesOnes(lambda, h, n - 1, |lambda|);
      assert lambda[..|lambda|] == lambda;
      assert lambda[..n][..n - 1] == lambda[..n - 1];
    }
  }

  /** With H all ones, λᵀ H λ is (Σ λ)². */
  lemma QuadFormOnes(lambda: seq<real>)
    ensures QuadForm(lambda, Ones(|lambda|, |lambda|)) == Sum(lambda) * Sum(lambda)
  {
    assert lambda[..|lambda|] == lambda;
    QuadPrefixOnes(lambda, |lambda|);
  }

  /** With H the identity, entry j of λᵀ H is λ_j once j is among the rows summed. */
  lemma {:induction false} RowTimesIdentity(lambda: seq<real>, j: nat, n: nat)
    requires n <= |lambda| && j < |lambda|
    ensures RowTimes(lambda, Identity(|lambda|), j, n) == if j < n then lambda[j] else 0.0
  {
    if n > 0 {
      RowTimesIdentity(lambda, j, n - 1);
    }
  }

  lemma {:induction false} QuadPrefixIdentity(lambda: seq<real>, n: nat)
    requires n <= |lambda|
    ensures QuadPrefix(lambda, Identity(|lambda|), n) == DotPrefix(lambda, lambda, n)
  {
    if n > 0 {
      QuadPrefixIdentity(lambda, n - 1);
      RowTimesIdentity(lambda, n - 1, |lambda|);
    }
  }

  /** With H the identity, λᵀ H λ is Σ λ_i². */
  lemma QuadFormIdentity(lambda: seq<real>)
    ensures QuadForm(lambda, Identity(|lambda|)) == DotPrefix(lambda, lambda, |lambda|)
  {
    QuadPrefixIdentity(lambda, |lambda|);
  }

  /** The source's last two lines: (‖X‖² + ‖model‖² − 2 ⟨X, model⟩) / ‖X‖², with no clamp
      at zero. Rounding can push the numerator below zero once the model fits well, and
      the square root of that is not a number. */
  function SquaredErrorAsWritten(sqNormA: real, sqNormModel: real, inner: real): (r: Result<real, NumFault>)
    ensures r == Err(DivideByZero) <==> sqNormA == 0.0
    ensures sqNormA > 0.0 ==> (r == Err(NegativeRadicand) <==> sqNormA + sqNormModel < 2.0 * inner)
    ensures r.Ok? ==> r.value * sqNormA == sqNormA + sqNormModel - 2.0 * inner
  {
    if sqNormA == 0.0 then Err(DivideByZero)
    else
      var radicand := (sqNormA + sqNormModel - 2.0 * inner) / sqNormA;
      if radicand < 0.0 then Err(NegativeRadicand) else Ok(radicand)
  }

  /** The estimate with the max(…, 0) the comment above `computeError` promises: defined
      for every input with a non-zero norm, never negative when the norm is positive, and
      equal to the unclamped value whenever that one is defined. */
  function SquaredError(sqNormA: real, sqNormModel: real, inner: real): (r: Result<real, NumFault>)
    ensures r.Ok? <==> sqNormA != 0.0
    ensures sqNormA > 0.0 ==> r.Ok? && r.value >= 0.0
    ensures sqNormA > 0.0 && SquaredErrorAsWritten(sqNormA, sqNormModel, inner).Ok? ==> r == SquaredErrorAsWritten(sqNormA, sqNormModel, inner)
    ensures r.Ok? ==> var numerator := sqNormA + sqNormModel - 2.0 * inner;
                      r.value * sqNormA == (if numerator < 0.0 then 0.0 else numerator)
    ensures r.Ok? && sqNormA + sqNormModel < 2.0 * inner ==> r.value == 0.0
  {
    if sqNormA == 0.0 then Err(DivideByZero)
    else
      var numerator := sqNormA + sqNormModel - 2.0 * inner;
      Ok((if numerator < 0.0 then 0.0 else numerator) / sqNormA)
  }

  /** A witness at the level of the formula: ‖A‖² = 1, ‖model‖² = 0, ⟨A, model⟩ = 1 gives
      an unclamped radicand of −1 and a clamped one of 0. No tensor and model have these
      three values (a zero model has a zero inner product), and in exact arithmetic the
      radicand is ‖A − model‖² / ‖A‖² ≥ 0; in doubles, rounding of a near-perfect fit
      pushes it below zero, and `std::sqrt` of that is NaN. */
  lemma UnclampedRadicandCanBeNegative()
    ensures SquaredErrorAsWritten(1.0, 0.0, 1.0) == Err(NegativeRadicand)
    ensures SquaredError(1.0, 0.0, 1.0) == Ok(0.0)
  {
  }

  /** `hadamard_all_grams`, line 452: `global_gram` ∘ the last mode's Gram. It is k × k,
      and symmetric when both factors are. */
  function HadamardAllGrams(e: Engine): (h: Matrix)
    requires Valid(e) && |e.modes| >= 1
    ensures Shaped(h, e.k, e.k)
    ensures forall i: nat, j: nat :: i < e.k && j < e.k ==>
              At(h, i, j) == At(e.globalGram, i, j) * At(e.modes[|e.modes| - 1].gram, i, j)
    ensures Symmetric(e.globalGram) && Symmetric(e.modes[|e.modes| - 1].gram) ==> Symmetric(h)
  {
    var h := Hadamard(e.globalGram, e.modes[|e.modes| - 1].gram);
    HadamardSymmetric(e.globalGram, e.modes[|e.modes| - 1].gram);
    h
  }

  lemma HadamardSymmetric(a: Matrix, b: Matrix)
    requires SameShape(a, b)
    ensures Symmetric(a) && Symmetric(b) ==> Symmetric(Hadamard(a, b))
  {
    if Symmetric(a) && Symmetric(b) {
      var h := Hadamard(a, b);
      forall i: nat, j: nat | i < h.rows && j < h.rows
        ensures At(h, i, j) == At(h, j, i)
      {
        assert At(h, i, j) == At(a, i, j) * At(b, i, j);
        assert At(h, j, i) == At(a, j, i) * At(b, j, i);
      }
    }
  }

  /** When entry (i, j) of `global_gram` is that of the combined Gram `gram_hadamard(N − 1)`
      leaves, multiplying in mode N − 1's own Gram gives the product of every mode's Gram
      at (i, j). */
  lemma HadamardAllGramsIsAllGrams(e: Engine, i: nat, j: nat)
    requires Valid(e) && |e.modes| >= 1 && i < e.k && j < e.k
    requires At(e.globalGram, i, j) == Grams.EntryProductExcept(GlobalGrams(e), |e.modes| - 1, i, j)
    ensures At(HadamardAllGrams(e), i, j) == Grams.EntryProductExcept(GlobalGrams(e), -1, i, j)
  {
    var gs := GlobalGrams(e);
    assert gs[|gs| - 1] == e.modes[|e.modes| - 1].gram;
    CombinedTimesLast(gs, e.globalGram, e.k, i, j);
  }

  /** Entry (i, j) of the combined Gram for the last slot, times that slot's own Gram. */
  lemma CombinedTimesLast(gs: seq<Matrix>, g: Matrix, k: nat, i: nat, j: nat)
    requires Grams.AllSquare(gs, k) && |gs| >= 1 && g.rows == k && g.cols == k && i < k && j < k
    requires At(g, i, j) == Grams.EntryProductExcept(gs, |gs| - 1, i, j)
    ensures At(Hadamard(g, gs[|gs| - 1]), i, j) == Grams.EntryProductExcept(gs, -1, i, j)
  {
    Grams.ProductWithExcludedSlot(gs, |gs| - 1, k, i, j);
  }

  /** `computeError(unnorm_factor)` at the end of an iteration, with the clamp: the model's
      squared norm is λᵀ H λ for H = `hadamard_all_grams`, this process's inner product is
      the Frobenius product of its last-mode local MTTKRP with the solver's unnormalised
      output, and `inners` are every process's inner products (rank order, this process
      at `me`), summed by the all-reduce. */
  function ComputeError(e: Engine, unnorm: Matrix, inners: seq<real>, me: nat): (r: Result<real, NumFault>)
    requires Valid(e) && |e.modes| >= 1
    requires Shaped(unnorm, e.k, e.modes[|e.modes| - 1].localDim)
    requires me < |inners| && inners[me] == Dot(e.modes[|e.modes| - 1].localMttkrpT, unnorm)
    ensures r.Ok? <==> e.sqNormA != 0.0
    ensures e.sqNormA > 0.0 ==> r.Ok? && r.value >= 0.0
    ensures r == SquaredError(e.sqNormA, QuadForm(e.lambda, HadamardAllGrams(e)), Sum(inners))
  {
    var sqNormModel := QuadForm(e.lambda, HadamardAllGrams(e));
    var allInner := AllReduceScalar(inners);
    SquaredError(e.sqNormA, sqNormModel, allInner)
  }

  /** `computeError(unnorm_factor)` as written, lines 448-478: the same three quantities
      with no clamp. It fails on a zero norm, and otherwise exactly when the unclamped
      radicand is negative. */
  function ComputeErrorAsWritten(e: Engine, unnorm: Matrix, inners: seq<real>, me: nat): (r: Result<real, NumFault>)
    requires Valid(e) && |e.modes| >= 1
    requires Shaped(unnorm, e.k, e.modes[|e.modes| - 1].localDim)
    requires me < |inners| && inners[me] == Dot(e.modes[|e.modes| - 1].localMttkrpT, unnorm)
    ensures r == Err(DivideByZero) <==> e.sqNormA == 0.0
    ensures r == SquaredErrorAsWritten(e.sqNormA, QuadForm(e.lambda, HadamardAllGrams(e)), Sum(inners))
  {
    var sqNormModel := QuadForm(e.lambda, HadamardAllGrams(e));
    var allInner := AllReduceScalar(inners);
    SquaredErrorAsWritten(e.sqNormA, sqNormModel, allInner)
  }

  /** With a positive norm, wherever the as-written estimate is defined the clamped one
      returns the same value; they differ only where the source would take the square
      root of a negative number. */
  lemma ComputeErrorAgrees(e: Engine, unnorm: Matrix, inners: seq<real>, me: nat)
    requires Valid(e) && |e.modes| >= 1
    requires Shaped(unnorm, e.k, e.modes[|e.modes| - 1].localDim)
    requires me < |inners| && inners[me] == Dot(e.modes[|e.modes| - 1].localMttkrpT, unnorm)
    requires e.sqNormA > 0.0
    ensures ComputeErrorAsWritten(e, unnorm, inners, me).Ok? ==>
              ComputeError(e, unnorm, inners, me) == ComputeErrorAsWritten(e, unnorm, inners, me)
    ensures ComputeErrorAsWritten(e, unnorm, inners, me).Err? ==>
              ComputeError(e, unnorm, inners, me) == Ok(0.0)
  {
    var q := QuadForm(e.lambda, HadamardAllGrams(e));
    var w := SquaredErrorAsWritten(e.sqNormA, q, Sum(inners));
    var c := SquaredError(e.sqNormA, q, Sum(inners));
    assert ComputeErrorAsWritten(e, unnorm, inners, me) == w;
    assert ComputeError(e, unnorm, inners, me) == c;
  }
}
