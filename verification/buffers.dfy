/** Flat communication buffers (the `double*` memory handed to MPI) and the
    index arithmetic that relates block offsets to positions in a concatenation. */
module Buffers {

  type Buffer = seq<real>

  lemma Distribute(a: int, b: int, c: int)
    ensures (a - b) * c == a * c - b * c
    ensures (a + b) * c == a * c + b * c
  {
  }

  lemma {:induction false} MulMonotone(a: nat, b: nat, c: nat)
    requires a <= b
    ensures a * c <= b * c
    decreases b - a
  {
    if a < b {
      MulMonotone(a, b - 1, c);
      Distribute(b, 1, c);
    }
  }

  lemma MulStrict(a: nat, b: nat, k: nat)
    requires a < b && k > 0
    ensures a * k < b * k
  {
    MulMonotone(a + 1, b, k);
    Distribute(a, 1, k);
  }

  /** A positive factor cancels from equalities and inequalities. */
  lemma MulCancel(k: nat, a: nat, b: nat)
    requires k > 0
    ensures a * k == b * k <==> a == b
    ensures a * k <= b * k <==> a <= b
  {
    if a < b {
      MulStrict(a, b, k);
    }
    if b < a {
      MulStrict(b, a, k);
    }
  }

  lemma Rearrange(q: int, d: int, j: int, k: int, i: int)
    ensures q * (k * d) + (j * k + i) == (q * d + j) * k + i
  {
  }

  /** Euclidean division recovers (j, i) from `j * rows + i`. */
  lemma DivModUnique(n: int, rows: nat, j: int, i: int)
    requires 0 <= i < rows && n == j * rows + i
    ensures n / rows == j && n % rows == i
  {
    var q, s := n / rows, n % rows;
    assert n == q * rows + s;
    if q > j {
      MulMonotone(1, q - j, rows);
      Distribute(q, j, rows);
    } else if q < j {
      MulMonotone(1, j - q, rows);
      Distribute(j, q, rows);
    }
  }

  /** s blocks of k · d elements fit in k · dim elements exactly when s blocks of d
      columns fit in dim columns. */
  lemma ScaledFit(s: nat, d: nat, k: nat, dim: nat)
    requires k > 0
    ensures s * (k * d) <= k * dim <==> s * d <= dim
  {
    assert s * (k * d) == (s * d) * k;
    MulCancel(k, s * d, dim);
  }

  /** Block j of width `width` ends no later than the buffer of `count` blocks. */
  lemma BlockEnd(j: nat, count: nat, width: nat)
    requires j < count
    ensures 0 <= j * width
    ensures j * width + width <= count * width
  {
    MulMonotone(j + 1, count, width);
    Distribute(j, 1, width);
  }

  /** The sequences laid end to end, in order. */
  function Concat<T>(bufs: seq<seq<T>>): seq<T> {
    if |bufs| == 0 then [] else bufs[0] + Concat(bufs[1..])
  }

  /** Every sequence holds exactly `len` elements. */
  predicate Uniform<T>(bufs: seq<seq<T>>, len: nat) {
    forall p :: 0 <= p < |bufs| ==> |bufs[p]| == len
  }

  lemma {:induction false} ConcatAppend<T>(a: seq<seq<T>>, b: seq<seq<T>>)
    ensures Concat(a + b) == Concat(a) + Concat(b)
  {
    if |a| > 0 {
      assert (a + b)[1..] == a[1..] + b;
      ConcatAppend(a[1..], b);
    } else {
      assert a + b == b;
    }
  }

  lemma {:induction false} ConcatLength<T>(bufs: seq<seq<T>>, len: nat)
    requires Uniform(bufs, len)
    ensures |Concat(bufs)| == |bufs| * len
  {
    if |bufs| > 0 {
      ConcatLength(bufs[1..], len);
      Distribute(|bufs|, 1, len);
    }
  }

  /** Blocks a..b of a uniform concatenation are the elements a·len .. b·len. */
  lemma ConcatRange<T>(bufs: seq<seq<T>>, len: nat, a: nat, b: nat)
    requires Uniform(bufs, len) && a <= b <= |bufs|
    ensures a * len <= b * len <= |Concat(bufs)|
    ensures Concat(bufs)[a * len .. b * len] == Concat(bufs[a..b])
  {
    var pre, mid, post := bufs[..a], bufs[a..b], bufs[b..];
    assert bufs == pre + mid + post;
    ConcatAppend(pre + mid, post);
    ConcatAppend(pre, mid);
    ConcatLength(pre, len);
    ConcatLength(mid, len);
    MulMonotone(a, b, len);
    Distribute(b, a, len);
    ConcatLength(bufs, len);
    MulMonotone(b, |bufs|, len);
    var whole := Concat(pre) + Concat(mid) + Concat(post);
    assert Concat(bufs) == whole;
    assert whole[|Concat(pre)| .. |Concat(pre)| + |Concat(mid)|] == Concat(mid);
  }

  /** Block p of a uniform concatenation is buffer p. */
  lemma ConcatBlock<T>(bufs: seq<seq<T>>, len: nat, p: nat)
    requires Uniform(bufs, len) && p < |bufs|
    ensures p * len + len <= |Concat(bufs)|
    ensures Concat(bufs)[p * len .. p * len + len] == bufs[p]
  {
    ConcatRange(bufs, len, p, p + 1);
    Distribute(p, 1, len);
    assert bufs[p..p + 1] == [bufs[p]];
    assert Concat([bufs[p]]) == bufs[p] + Concat<T>([]);
  }

  /** Element q of block p sits at offset p·len + q. */
  lemma ConcatAt<T>(bufs: seq<seq<T>>, len: nat, p: nat, q: nat)
    requires Uniform(bufs, len) && p < |bufs| && q < len
    ensures p * len + q < |Concat(bufs)|
    ensures Concat(bufs)[p * len + q] == bufs[p][q]
  {
    ConcatBlock(bufs, len, p);
    assert Concat(bufs)[p * len .. p * len + len][q] == bufs[p][q];
  }

  /** A concatenation of sequences holding only `c` holds only `c`. */
  lemma {:induction false} ConcatConstant<T>(bufs: seq<seq<T>>, c: T)
    requires forall p, q :: 0 <= p < |bufs| && 0 <= q < |bufs[p]| ==> bufs[p][q] == c
    ensures forall n :: 0 <= n < |Concat(bufs)| ==> Concat(bufs)[n] == c
  {
    if |bufs| > 0 {
      ConcatConstant(bufs[1..], c);
      assert forall n :: 0 <= n < |Concat(bufs[1..])| ==> Concat(bufs[1..])[n] == c;
    }
  }

  /** Σ_p bufs[p][n]: element n summed over every buffer, in rank order. */
  function SumAt(bufs: seq<Buffer>, n: nat): real
    requires forall p :: 0 <= p < |bufs| ==> n < |bufs[p]|
  {
    if |bufs| == 0 then 0.0 else SumAt(bufs[..|bufs| - 1], n) + bufs[|bufs| - 1][n]
  }

  /** Σ xs, in order. */
  function Sum(xs: seq<real>): real {
    if |xs| == 0 then 0.0 else Sum(xs[..|xs| - 1]) + xs[|xs| - 1]
  }

  /** Σ counts. */
  function Total(counts: seq<nat>): nat {
    if |counts| == 0 then 0 else counts[0] + Total(counts[1..])
  }

  lemma {:induction false} TotalUniform(counts: seq<nat>, c: nat)
    requires forall r :: 0 <= r < |counts| ==> counts[r] == c
    ensures Total(counts) == |counts| * c
  {
    if |counts| > 0 {
      TotalUniform(counts[1..], c);
      Distribute(|counts|, 1, c);
    }
  }
}
