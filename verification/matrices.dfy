/** Dense real matrices with Armadillo's column-major layout. A matrix is kept as its
    list of columns; `Memory` is the flat buffer (`memptr()`) that MPI reads and writes. */
module Matrices {
  import opened Buffers

  /** A `rows` × `cols` matrix given column by column. */
  datatype Mat = Mat(rows: nat, cols: nat, columns: seq<seq<real>>)

  /** A matrix whose every column has `rows` entries. */
  type Matrix = a: Mat | |a.columns| == a.cols && forall j :: 0 <= j < |a.columns| ==> |a.columns[j]| == a.rows
    witness Mat(0, 0, [])

  /** Entry (i, j). */
  function At(a: Matrix, i: nat, j: nat): real
    requires i < a.rows && j < a.cols
  {
    a.columns[j][i]
  }

  predicate SameShape(a: Matrix, b: Matrix) {
    a.rows == b.rows && a.cols == b.cols
  }

  /** The `rows` × `cols` matrix whose entry (i, j) is `f(i, j)`. */
  function Build(rows: nat, cols: nat, f: (nat, nat) --> real): (r: Matrix)
    requires forall i: nat, j: nat :: i < rows && j < cols ==> f.requires(i, j)
    ensures r.rows == rows && r.cols == cols
    ensures forall i: nat, j: nat :: i < rows && j < cols ==> At(r, i, j) == f(i, j)
  {
    Mat(rows, cols, seq(cols, (j: int) requires 0 <= j < cols =>
                                seq(rows, (i: int) requires 0 <= i < rows => f(i, j))))
  }

  /** Two matrices of one shape that agree entry by entry are equal. */
  lemma Extensionality(a: Matrix, b: Matrix)
    requires SameShape(a, b)
    requires forall i: nat, j: nat :: i < a.rows && j < a.cols ==> At(a, i, j) == At(b, i, j)
    ensures a == b
  {
    forall j | 0 <= j < a.cols
      ensures a.columns[j] == b.columns[j]
    {
      forall i | 0 <= i < a.rows
        ensures a.columns[j][i] == b.columns[j][i]
      {
        assert At(a, i, j) == At(b, i, j);
      }
    }
  }

  /** Columns `start` .. `start + width` of `a` (Armadillo's `cols(start, start + width - 1)`). */
  function ColumnBlock(a: Matrix, start: nat, width: nat): (r: Matrix)
    requires start + width <= a.cols
    ensures r.rows == a.rows && r.cols == width
    ensures forall i: nat, j: nat :: i < a.rows && j < width ==> At(r, i, j) == At(a, i, start + j)
  {
    Mat(a.rows, width, a.columns[start .. start + width])
  }

  /** `arma::zeros(rows, cols)`. */
  function Zeros(rows: nat, cols: nat): (r: Matrix)
    ensures r.rows == rows && r.cols == cols
    ensures forall i: nat, j: nat :: i < rows && j < cols ==> At(r, i, j) == 0.0
  {
    Build(rows, cols, (i, j) => 0.0)
  }

  /** `arma::ones(rows, cols)`. */
  function Ones(rows: nat, cols: nat): (r: Matrix)
    ensures r.rows == rows && r.cols == cols
    ensures forall i: nat, j: nat :: i < rows && j < cols ==> At(r, i, j) == 1.0
  {
    Build(rows, cols, (i, j) => 1.0)
  }

  /** `arma::eye(k, k)`. */
  function Identity(k: nat): (r: Matrix)
    ensures r.rows == k && r.cols == k
    ensures forall i: nat, j: nat :: i < k && j < k ==> At(r, i, j) == (if i == j then 1.0 else 0.0)
  {
    Build(k, k, (i, j) => if i == j then 1.0 else 0.0)
  }

  /** Entry-wise sum `a + b`. */
  function Add(a: Matrix, b: Matrix): (r: Matrix)
    requires SameShape(a, b)
    ensures SameShape(r, a)
    ensures forall i: nat, j: nat :: i < a.rows && j < a.cols ==> At(r, i, j) == At(a, i, j) + At(b, i, j)
  {
    Build(a.rows, a.cols, (i: nat, j: nat) requires i < a.rows && j < a.cols => At(a, i, j) + At(b, i, j))
  }

  /** Scalar multiple `s * a`. */
  function Scale(s: real, a: Matrix): (r: Matrix)
    ensures SameShape(r, a)
    ensures forall i: nat, j: nat :: i < a.rows && j < a.cols ==> At(r, i, j) == s * At(a, i, j)
  {
    Build(a.rows, a.cols, (i: nat, j: nat) requires i < a.rows && j < a.cols => s * At(a, i, j))
  }

  /** Entry-wise (Hadamard) product, Armadillo's `%`. */
  function Hadamard(a: Matrix, b: Matrix): (r: Matrix)
    requires SameShape(a, b)
    ensures SameShape(r, a)
    ensures forall i: nat, j: nat :: i < a.rows && j < a.cols ==> At(r, i, j) == At(a, i, j) * At(b, i, j)
  {
    Build(a.rows, a.cols, (i: nat, j: nat) requires i < a.rows && j < a.cols => At(a, i, j) * At(b, i, j))
  }

  /** `a.t()`. */
  function Transpose(a: Matrix): (r: Matrix)
    ensures r.rows == a.cols && r.cols == a.rows
    ensures forall i: nat, j: nat :: i < a.cols && j < a.rows ==> At(r, i, j) == At(a, j, i)
  {
    Build(a.cols, a.rows, (i: nat, j: nat) requires i < a.cols && j < a.rows => At(a, j, i))
  }

  /** Transposing twice gives the matrix back, whatever its shape. */
  lemma TransposeInvolution(a: Matrix)
    ensures Transpose(Transpose(a)) == a
  {
    Extensionality(Transpose(Transpose(a)), a);
  }

  /** Σ_{l < n} x(l, i) · x(l, j): the first `n` terms of the dot product of columns i and j. */
  function ColumnDot(x: Matrix, i: nat, j: nat, n: nat): real
    requires i < x.cols && j < x.cols && n <= x.rows
  {
    if n == 0 then 0.0 else ColumnDot(x, i, j, n - 1) + At(x, n - 1, i) * At(x, n - 1, j)
  }

  lemma {:induction false} ColumnDotSymmetric(x: Matrix, i: nat, j: nat, n: nat)
    requires i < x.cols && j < x.cols && n <= x.rows
    ensures ColumnDot(x, i, j, n) == ColumnDot(x, j, i, n)
  {
    if n > 0 {
      ColumnDotSymmetric(x, i, j, n - 1);
    }
  }

  /** The Gram matrix `xᵀ · x`: k × k for an m × k factor. */
  function Gram(x: Matrix): (r: Matrix)
    ensures r.rows == x.cols && r.cols == x.cols
    ensures forall i: nat, j: nat :: i < x.cols && j < x.cols ==> At(r, i, j) == ColumnDot(x, i, j, x.rows)
  {
    Build(x.cols, x.cols, (i: nat, j: nat) requires i < x.cols && j < x.cols => ColumnDot(x, i, j, x.rows))
  }

  /** A square matrix equal to its transpose. */
  predicate Symmetric(a: Matrix) {
    a.rows == a.cols &&
    forall i: nat, j: nat :: i < a.rows && j < a.rows ==> At(a, i, j) == At(a, j, i)
  }

  /** Every Gram matrix is symmetric. */
  lemma GramSymmetric(x: Matrix)
    ensures Symmetric(Gram(x))
  {
    forall i: nat, j: nat | i < x.cols && j < x.cols
      ensures At(Gram(x), i, j) == At(Gram(x), j, i)
    {
      ColumnDotSymmetric(x, i, j, x.rows);
    }
  }

  /** The flat column-major buffer behind `a` (Armadillo's `memptr()`). */
  function Memory(a: Matrix): (m: Buffer)
    ensures |m| == a.rows * a.cols
  {
    ConcatLength(a.columns, a.rows);
    Concat(a.columns)
  }

  /** Entry (i, j) sits at offset `j * rows + i` of the buffer. */
  lemma MemoryAt(a: Matrix, i: nat, j: nat)
    requires i < a.rows && j < a.cols
    ensures 0 <= j * a.rows && j * a.rows + i < |Memory(a)|
    ensures Memory(a)[j * a.rows + i] == At(a, i, j)
  {
    ConcatAt(a.columns, a.rows, j, i);
  }

  /** Column j of the matrix stored in `buf`. */
  function Column(buf: Buffer, rows: nat, cols: nat, j: nat): (c: seq<real>)
    requires |buf| == rows * cols && j < cols
    ensures |c| == rows
  {
    BlockEnd(j, cols, rows);
    buf[j * rows .. j * rows + rows]
  }

  /** The `rows` × `cols` matrix whose column-major buffer is `buf`. */
  function FromMemory(rows: nat, cols: nat, buf: Buffer): (r: Matrix)
    requires |buf| == rows * cols
    ensures r.rows == rows && r.cols == cols
  {
    Mat(rows, cols, seq(cols, (j: int) requires 0 <= j < cols => Column(buf, rows, cols, j)))
  }

  lemma FromMemoryAt(rows: nat, cols: nat, buf: Buffer, i: nat, j: nat)
    requires |buf| == rows * cols && i < rows && j < cols
    ensures 0 <= j * rows && j * rows + i < |buf|
    ensures At(FromMemory(rows, cols, buf), i, j) == buf[j * rows + i]
  {
    BlockEnd(j, cols, rows);
  }

  /** The buffer of the matrix read from `buf` is `buf` itself. */
  lemma MemoryOfFromMemory(rows: nat, cols: nat, buf: Buffer)
    requires |buf| == rows * cols
    ensures Memory(FromMemory(rows, cols, buf)) == buf
  {
    var a := FromMemory(rows, cols, buf);
    forall n | 0 <= n < |buf|
      ensures Memory(a)[n] == buf[n]
    {
      var i, j := n % rows, n / rows;
      DivModUnique(n, rows, j, i);
      assert n == j * rows + i;
      if j >= cols {
        MulMonotone(cols, j, rows);
      }
      MemoryAt(a, i, j);
      FromMemoryAt(rows, cols, buf, i, j);
    }
  }

  /** Every entry of a zero matrix's buffer is zero. */
  lemma MemoryOfZeros(rows: nat, cols: nat)
    ensures forall n :: 0 <= n < |Memory(Zeros(rows, cols))| ==> Memory(Zeros(rows, cols))[n] == 0.0
  {
    var z := Zeros(rows, cols);
    forall p, q | 0 <= p < |z.columns| && 0 <= q < |z.columns[p]|
      ensures z.columns[p][q] == 0.0
    {
      assert At(z, q, p) == 0.0;
    }
    ConcatConstant(z.columns, 0.0);
  }

  /** The buffers of several matrices, in order. */
  function Memories(ms: seq<Matrix>): (bufs: seq<Buffer>)
    ensures |bufs| == |ms|
    ensures forall p :: 0 <= p < |ms| ==> bufs[p] == Memory(ms[p])
  {
    seq(|ms|, p requires 0 <= p < |ms| => Memory(ms[p]))
  }

  /** Every matrix is `rows` × `cols`. */
  predicate AllShaped(ms: seq<Matrix>, rows: nat, cols: nat) {
    forall p :: 0 <= p < |ms| ==> ms[p].rows == rows && ms[p].cols == cols
  }

  /** Σ_p ms[p](i, j), in order. */
  function EntrySum(ms: seq<Matrix>, i: nat, j: nat): real
    requires forall p :: 0 <= p < |ms| ==> i < ms[p].rows && j < ms[p].cols
  {
    if |ms| == 0 then 0.0 else EntrySum(ms[..|ms| - 1], i, j) + At(ms[|ms| - 1], i, j)
  }

  /** The entry-wise sum of several `rows` × `cols` matrices. */
  function SumAll(ms: seq<Matrix>, rows: nat, cols: nat): (r: Matrix)
    requires AllShaped(ms, rows, cols)
    ensures r.rows == rows && r.cols == cols
    ensures forall i: nat, j: nat :: i < rows && j < cols ==> At(r, i, j) == EntrySum(ms, i, j)
  {
    Build(rows, cols, (i: nat, j: nat) requires i < rows && j < cols => EntrySum(ms, i, j))
  }

  /** Summing the buffers at offset `j * rows + i` sums entry (i, j). */
  lemma {:induction false} SumAtMemories(ms: seq<Matrix>, rows: nat, cols: nat, i: nat, j: nat)
    requires AllShaped(ms, rows, cols) && i < rows && j < cols
    ensures j * rows + i < rows * cols
    ensures SumAt(Memories(ms), j * rows + i) == EntrySum(ms, i, j)
  {
    BlockEnd(j, cols, rows);
    if |ms| > 0 {
      var n := |ms| - 1;
      assert Memories(ms)[..n] == Memories(ms[..n]);
      SumAtMemories(ms[..n], rows, cols, i, j);
      MemoryAt(ms[n], i, j);
    }
  }

  /** Frobenius inner product over the first `n` buffer elements. */
  function DotPrefix(a: Buffer, b: Buffer, n: nat): real
    requires n <= |a| && n <= |b|
  {
    if n == 0 then 0.0 else DotPrefix(a, b, n - 1) + a[n - 1] * b[n - 1]
  }

  /** `arma::dot(a, b)` on two matrices of equal element count: Σ_n a[n] · b[n]. */
  function Dot(a: Matrix, b: Matrix): real
    requires a.rows * a.cols == b.rows * b.cols
  {
    DotPrefix(Memory(a), Memory(b), a.rows * a.cols)
  }
}
