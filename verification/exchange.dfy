/** The two data movements of one mode, on matrices: the all-gather that assembles a
    factor from the shards of a processor fiber (`gather_ncp_factor`) and the
    reduce-scatter that sums MTTKRP contributions over a slice and hands every member
    its own column block (`distmttkrp`). Matrices travel as their column-major buffers. */
module Exchange {
  import opened Buffers
  import opened Results
  import opened Matrices
  import opened Collectives

  // ---- all-gather of a factor ----

  /** Column block p of `g`, `width` columns wide, is `blocks[p]`, for every p. */
  predicate Tiled(g: Matrix, blocks: seq<Matrix>, width: nat) {
    forall p :: 0 <= p < |blocks| ==> p * width + width <= g.cols && ColumnBlock(g, p * width, width) == blocks[p]
  }

  /** All-gather of the fiber's k × d shards (sendcnt = d · k) into a zeroed k × dim
      receive buffer, read back as a k × dim matrix. Fails when a member's shard has a
      different column count, or the blocks do not fit. */
  function GatherFactor(fiber: seq<Matrix>, k: nat, d: nat, dim: nat): (r: Result<Matrix, CommFault>)
    requires k > 0 && forall p :: 0 <= p < |fiber| ==> fiber[p].rows == k
    ensures r.Ok? <==> (forall p :: 0 <= p < |fiber| ==> fiber[p].cols == d) && |fiber| * d <= dim
    ensures r.Ok? ==> r.value.rows == k && r.value.cols == dim
    ensures r.Ok? ==> Tiled(r.value, fiber, d)
    ensures r.Ok? ==> ColumnBlock(r.value, |fiber| * d, dim - |fiber| * d) == Zeros(k, dim - |fiber| * d)
  {
    GatherCounts(fiber, k, d, dim);
    var recv :- AllGather(Memories(fiber), d * k);
    var buf :- Store(Memory(Zeros(k, dim)), recv);
    GatheredBlocks(fiber, k, d, dim, recv, buf);
    GatheredZeros(fiber, k, d, dim, recv, buf);
    Ok(FromMemory(k, dim, buf))
  }

  lemma MemoryLengths(fiber: seq<Matrix>, k: nat, d: nat)
    requires k > 0
    requires forall p :: 0 <= p < |fiber| ==> fiber[p].rows == k
    ensures Uniform(Memories(fiber), d * k) <==> (forall p :: 0 <= p < |fiber| ==> fiber[p].cols == d)
  {
    forall p | 0 <= p < |fiber|
      ensures |Memories(fiber)[p]| == d * k <==> fiber[p].cols == d
    {
      assert |Memories(fiber)[p]| == fiber[p].cols * k;
      MulCancel(k, fiber[p].cols, d);
    }
  }

  /** When the all-gather and the store into the receive buffer succeed. */
  lemma GatherCounts(fiber: seq<Matrix>, k: nat, d: nat, dim: nat)
    requires k > 0
    requires forall p :: 0 <= p < |fiber| ==> fiber[p].rows == k
    ensures AllGather(Memories(fiber), d * k).Ok? <==> (forall p :: 0 <= p < |fiber| ==> fiber[p].cols == d)
    ensures AllGather(Memories(fiber), d * k).Ok? ==>
              (Store(Memory(Zeros(k, dim)), AllGather(Memories(fiber), d * k).value).Ok? <==> |fiber| * d <= dim)
  {
    MemoryLengths(fiber, k, d);
    var f := |fiber|;
    MulCancel(k, f * d, dim);
    assert f * (d * k) == (f * d) * k;
  }

  /** Column j of block p is column p · d + j of the whole, and entry i of it is element
      j · k + i of the block's buffer. */
  lemma BlockOffset(p: nat, d: nat, j: nat, k: nat, i: nat, f: nat, dim: nat)
    requires p < f && j < d && i < k && f * d <= dim
    ensures 0 <= p * d && p * d + j < dim
    ensures (p * d + j) * k + i == p * (d * k) + (j * k + i)
    ensures j * k + i < d * k
  {
    BlockEnd(p, f, d);
    Rearrange(p, d, j, k, i);
    MulMonotone(j + 1, d, k);
    Distribute(j, 1, k);
  }

  lemma BlockElement(whole: Buffer, start: nat, len: nat, block: Buffer, q: nat)
    requires start + len <= |whole| && whole[start .. start + len] == block && q < len
    ensures whole[start + q] == block[q]
  {
  }

  lemma GatheredEntry(fiber: seq<Matrix>, k: nat, d: nat, dim: nat, p: nat, i: nat, j: nat, recv: Buffer, buf: Buffer)
    requires AllShaped(fiber, k, d) && |fiber| * d <= dim
    requires p < |fiber| && i < k && j < d
    requires AllGather(Memories(fiber), d * k) == Ok(recv)
    requires Store(Memory(Zeros(k, dim)), recv) == Ok(buf)
    ensures 0 <= p * d && p * d + j < dim
    ensures At(FromMemory(k, dim, buf), i, p * d + j) == At(fiber[p], i, j)
  {
    var start, q, col := GatherOffset(p, d, j, k, i, |fiber|, dim);
    GatheredElement(fiber, k, d, dim, p, recv, buf, start, q);
    FromMemoryAt(k, dim, buf, i, col);
    MemoryAt(fiber[p], i, j);
  }

  /** Entry (i, j) of member p's k × d shard: the shard starts at element `start` of the
      gathered buffer, the entry is element q of the shard and column `col` of the whole. */
  lemma GatherOffset(p: nat, d: nat, j: nat, k: nat, i: nat, f: nat, dim: nat) returns (start: nat, q: nat, col: nat)
    requires p < f && j < d && i < k && f * d <= dim
    ensures start == p * (d * k) && q == j * k + i && col == p * d + j
    ensures 0 <= p * d && col < dim && q < d * k && start + q == col * k + i
  {
    BlockOffset(p, d, j, k, i, f, dim);
    start, q, col := p * (d * k), j * k + i, p * d + j;
  }

  /** Element q of member p's shard lands at element `start` + q of the receive buffer. */
  lemma GatheredElement(fiber: seq<Matrix>, k: nat, d: nat, dim: nat, p: nat, recv: Buffer, buf: Buffer, start: nat, q: nat)
    requires p < |fiber| && q < d * k && start == p * (d * k)
    requires AllGather(Memories(fiber), d * k) == Ok(recv)
    requires Store(Memory(Zeros(k, dim)), recv) == Ok(buf)
    ensures start + q < |buf| && q < |Memory(fiber[p])| && buf[start + q] == Memory(fiber[p])[q]
  {
    var len: nat := d * k;
    var s := GatheredShard(Memories(fiber), len, recv, p);
    assert Memories(fiber)[p] == Memory(fiber[p]);
    BlockElement(recv, s, len, Memory(fiber[p]), q);
    PrefixAt(buf, recv, s + q);
  }

  /** Member p's block of a successful all-gather. */
  lemma GatheredShard(sends: seq<Buffer>, count: nat, recv: Buffer, p: nat) returns (start: nat)
    requires AllGather(sends, count) == Ok(recv) && p < |sends|
    ensures start == p * count
    ensures start + count <= |recv| && recv[start .. start + count] == sends[p]
  {
    start := p * count;
  }

  lemma PrefixAt(buf: Buffer, recv: Buffer, n: nat)
    requires |recv| <= |buf| && buf[..|recv|] == recv && n < |recv|
    ensures buf[n] == recv[n]
  {
    assert buf[..|recv|][n] == buf[n];
  }

  lemma GatheredTail(fiber: seq<Matrix>, k: nat, d: nat, dim: nat, i: nat, j: nat, recv: Buffer, buf: Buffer)
    requires AllShaped(fiber, k, d)
    requires i < k && |fiber| * d <= j < dim
    requires AllGather(Memories(fiber), d * k) == Ok(recv)
    requires Store(Memory(Zeros(k, dim)), recv) == Ok(buf)
    ensures At(FromMemory(k, dim, buf), i, j) == 0.0
  {
    var z := Memory(Zeros(k, dim));
    FromMemoryAt(k, dim, buf, i, j);
    var f := |fiber|;
    assert |recv| == f * (d * k);
    TailOffset(f, d, j, k, i);
    MemoryOfZeros(k, dim);
    ZeroTail(z, recv, buf, j * k + i);
  }

  /** The gathered blocks end at or before element j · k + i when column j lies past them. */
  lemma TailOffset(f: nat, d: nat, j: nat, k: nat, i: nat)
    requires f * d <= j
    ensures f * (d * k) <= j * k + i
  {
    var fd := f * d;
    assert f * (d * k) == fd * k;
    MulMonotone(fd, j, k);
  }

  lemma ZeroTail(z: Buffer, recv: Buffer, buf: Buffer, n: nat)
    requires forall t :: 0 <= t < |z| ==> z[t] == 0.0
    requires Store(z, recv) == Ok(buf)
    requires |recv| <= n < |buf|
    ensures buf[n] == 0.0
  {
    assert buf[|recv|..][n - |recv|] == z[|recv|..][n - |recv|];
  }

  /** Column block p of the receive buffer is fiber member p's shard. */
  lemma GatheredBlock(fiber: seq<Matrix>, k: nat, d: nat, dim: nat, p: nat, recv: Buffer, buf: Buffer)
    requires AllShaped(fiber, k, d) && |fiber| * d <= dim && p < |fiber|
    requires AllGather(Memories(fiber), d * k) == Ok(recv)
    requires Store(Memory(Zeros(k, dim)), recv) == Ok(buf)
    ensures 0 <= p * d && p * d + d <= dim
    ensures ColumnBlock(FromMemory(k, dim, buf), p * d, d) == fiber[p]
  {
    BlockEnd(p, |fiber|, d);
    var block := ColumnBlock(FromMemory(k, dim, buf), p * d, d);
    forall i: nat, j: nat | i < k && j < d
      ensures At(block, i, j) == At(fiber[p], i, j)
    {
      GatheredEntry(fiber, k, d, dim, p, i, j, recv, buf);
    }
    Extensionality(block, fiber[p]);
  }

  lemma GatheredBlocks(fiber: seq<Matrix>, k: nat, d: nat, dim: nat, recv: Buffer, buf: Buffer)
    requires AllShaped(fiber, k, d) && |fiber| * d <= dim
    requires AllGather(Memories(fiber), d * k) == Ok(recv)
    requires Store(Memory(Zeros(k, dim)), recv) == Ok(buf)
    ensures |buf| == k * dim
    ensures forall p :: 0 <= p < |fiber| ==>
              0 <= p * d && p * d + d <= dim && ColumnBlock(FromMemory(k, dim, buf), p * d, d) == fiber[p]
  {
    forall p | 0 <= p < |fiber|
      ensures 0 <= p * d && p * d + d <= dim && ColumnBlock(FromMemory(k, dim, buf), p * d, d) == fiber[p]
    {
      GatheredBlock(fiber, k, d, dim, p, recv, buf);
    }
  }

  /** The columns after the last block keep the zeros the buffer was filled with. */
  lemma GatheredZeros(fiber: seq<Matrix>, k: nat, d: nat, dim: nat, recv: Buffer, buf: Buffer)
    requires AllShaped(fiber, k, d) && |fiber| * d <= dim
    requires AllGather(Memories(fiber), d * k) == Ok(recv)
    requires Store(Memory(Zeros(k, dim)), recv) == Ok(buf)
    ensures |buf| == k * dim
    ensures ColumnBlock(FromMemory(k, dim, buf), |fiber| * d, dim - |fiber| * d) == Zeros(k, dim - |fiber| * d)
  {
    var f := |fiber| * d;
    var tail := ColumnBlock(FromMemory(k, dim, buf), f, dim - f);
    forall i: nat, j: nat | i < k && j < dim - f
      ensures At(tail, i, j) == At(Zeros(k, dim - f), i, j)
    {
      TailEntry(fiber, k, d, dim, recv, buf, f, i, j);
    }
    Extensionality(tail, Zeros(k, dim - f));
  }

  /** Entry (i, j) of the columns past the gathered blocks is zero. */
  lemma TailEntry(fiber: seq<Matrix>, k: nat, d: nat, dim: nat, recv: Buffer, buf: Buffer, f: nat, i: nat, j: nat)
    requires AllShaped(fiber, k, d) && f == |fiber| * d && f <= dim && i < k && j < dim - f
    requires AllGather(Memories(fiber), d * k) == Ok(recv)
    requires Store(Memory(Zeros(k, dim)), recv) == Ok(buf)
    ensures At(ColumnBlock(FromMemory(k, dim, buf), f, dim - f), i, j) == 0.0
  {
    GatheredTail(fiber, k, d, dim, i, f + j, recv, buf);
  }

  // ---- reduce-scatter of MTTKRP contributions ----

  /** Reduce-scatter of the slice's buffers with `counts`, member `me`'s piece written at
      the start of `dst`'s buffer; the rest of `dst` keeps its values. */
  function ScatterInto(dst: Matrix, slice: seq<Matrix>, counts: seq<nat>, me: nat): (r: Result<Matrix, CommFault>)
    requires me < |slice| && |counts| == |slice|
    ensures r.Ok? <==> (forall p :: 0 <= p < |slice| ==> Total(counts) <= |Memory(slice[p])|) && counts[me] <= |Memory(dst)|
    ensures r.Ok? ==> r.value.rows == dst.rows && r.value.cols == dst.cols
    ensures r.Ok? ==> Memory(r.value)[..counts[me]] == ReduceScatter(Memories(slice), counts).value[me]
    ensures r.Ok? ==> Memory(r.value)[counts[me]..] == Memory(dst)[counts[me]..]
  {
    var pieces :- ReduceScatter(Memories(slice), counts);
    var buf :- Store(Memory(dst), pieces[me]);
    MemoryOfFromMemory(dst.rows, dst.cols, buf);
    Ok(FromMemory(dst.rows, dst.cols, buf))
  }

  /** With k · d elements per member, the piece member `me` receives, read as a k × d
      matrix, is column block `me` of the slice-wide entry-wise sum. */
  lemma OwnedBlock(dst: Matrix, slice: seq<Matrix>, counts: seq<nat>, me: nat, dim: nat, r: Matrix)
    requires dst.rows > 0 && me < |slice| && |counts| == |slice| && AllShaped(slice, dst.rows, dim)
    requires forall q :: 0 <= q < |counts| ==> counts[q] == dst.rows * dst.cols
    requires ScatterInto(dst, slice, counts, me) == Ok(r)
    ensures |slice| * dst.cols <= dim
    ensures 0 <= me * dst.cols && me * dst.cols + dst.cols <= dim
    ensures r == ColumnBlock(SumAll(slice, dst.rows, dim), me * dst.cols, dst.cols)
  {
    var k, d := dst.rows, dst.cols;
    var mems := Memories(slice);
    ReduceScatterUniformPiece(mems, counts, k * d, me);
    assert Total(counts) <= |mems[me]| == k * dim;
    ScaledFit(|slice|, d, k, dim);
    OwnedMatrix(slice, k, d, dim, me, Total(counts), r);
  }

  lemma OwnedMatrix(slice: seq<Matrix>, k: nat, d: nat, dim: nat, me: nat, len: nat, r: Matrix)
    requires AllShaped(slice, k, dim) && |slice| * d <= dim && me < |slice|
    requires r.rows == k && r.cols == d
    requires len <= k * dim && AllHold(Memories(slice), len)
    requires me * (k * d) + k * d <= len
    requires Memory(r) == SumPrefix(Memories(slice), len)[me * (k * d) .. me * (k * d) + k * d]
    ensures 0 <= me * d && me * d + d <= dim
    ensures r == ColumnBlock(SumAll(slice, k, dim), me * d, d)
  {
    BlockEnd(me, |slice|, d);
    var want := ColumnBlock(SumAll(slice, k, dim), me * d, d);
    forall i: nat, j: nat | i < k && j < d
      ensures At(r, i, j) == At(want, i, j)
    {
      OwnedAt(slice, k, d, dim, me, len, r, i, j);
    }
    Extensionality(r, want);
  }

  lemma OwnedAt(slice: seq<Matrix>, k: nat, d: nat, dim: nat, me: nat, len: nat, r: Matrix, i: nat, j: nat)
    requires AllShaped(slice, k, dim) && |slice| * d <= dim && me < |slice|
    requires r.rows == k && r.cols == d && i < k && j < d
    requires len <= k * dim && AllHold(Memories(slice), len)
    requires me * (k * d) + k * d <= len
    requires Memory(r) == SumPrefix(Memories(slice), len)[me * (k * d) .. me * (k * d) + k * d]
    ensures 0 <= me * d && me * d + j < dim
    ensures At(r, i, j) == EntrySum(slice, i, me * d + j)
  {
    var start, q, col := PieceOffset(me, d, j, k, i, |slice|, dim);
    MemoryAt(r, i, j);
    OwnedEntry(slice, k, dim, len, Memory(r), start, q, col, i);
  }

  /** Entry (i, j) of member `me`'s k × d piece: the piece starts at element `start` of the
      summed buffer, the entry is element q of the piece and column `col` of the whole. */
  lemma PieceOffset(me: nat, d: nat, j: nat, k: nat, i: nat, f: nat, dim: nat) returns (start: nat, q: nat, col: nat)
    requires me < f && j < d && i < k && f * d <= dim
    ensures start == me * (k * d) && q == j * k + i && col == me * d + j
    ensures col < dim && q < k * d && start + q == col * k + i
  {
    BlockOffset(me, d, j, k, i, f, dim);
    start, q, col := me * (k * d), j * k + i, me * d + j;
  }

  /** Element q of the piece starting at `start` of the summed buffer, when it sits at
      entry (i, col) of the column-major k × dim layout, is the slice-wide sum of entry (i, col). */
  lemma OwnedEntry(slice: seq<Matrix>, k: nat, dim: nat, len: nat, piece: Buffer, start: nat, q: nat, col: nat, i: nat)
    requires AllShaped(slice, k, dim) && AllHold(Memories(slice), len)
    requires i < k && col < dim
    requires start + |piece| <= len && piece == SumPrefix(Memories(slice), len)[start .. start + |piece|]
    requires q < |piece| && start + q == col * k + i
    ensures piece[q] == EntrySum(slice, i, col)
  {
    SumAtMemories(slice, k, dim, i, col);
    BlockElement(SumPrefix(Memories(slice), len), start, |piece|, piece, q);
  }
}
