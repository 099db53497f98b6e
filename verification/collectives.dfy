/** The three MPI collectives the engine calls, as pure functions over the buffers of
    every member of one communicator, listed in communicator-rank order (MPI-3.1):
    all-gather (section 5.7, MPI_ALLGATHER), all-reduce with MPI_SUM (section 5.9.6,
    MPI_ALLREDUCE) and reduce-scatter (section 5.10.2, MPI_REDUCE_SCATTER).
    Calls whose buffers do not match what the standard demands are undefined behaviour
    in MPI; here they end in a `CommFault`. */
module Collectives {
  import opened Buffers
  import opened Results

  datatype CommFault =
    | CountMismatch  // a member sends a different element count than the receivers expect
    | OverRead       // a send buffer is shorter than the count the call reads from it
    | Overflow       // the received data does not fit in the receive buffer

  /** MPI_ALLGATHER where every member sends `count` elements: every member receives
      all blocks, member p's block at offset p · count. */
  function AllGather(sends: seq<Buffer>, count: nat): (r: Result<Buffer, CommFault>)
    ensures r.Ok? <==> Uniform(sends, count)
    ensures r.Ok? ==> |r.value| == |sends| * count
    ensures r.Ok? ==> forall p :: 0 <= p < |sends| ==>
              p * count + count <= |r.value| && r.value[p * count .. p * count + count] == sends[p]
  {
    if Uniform(sends, count) then
      ConcatLength(sends, count);
      AllGatherPlacement(sends, count);
      Ok(Concat(sends))
    else
      Err(CountMismatch)
  }

  lemma AllGatherPlacement(sends: seq<Buffer>, count: nat)
    requires Uniform(sends, count)
    ensures forall p :: 0 <= p < |sends| ==>
              p * count + count <= |Concat(sends)| && Concat(sends)[p * count .. p * count + count] == sends[p]
  {
    forall p | 0 <= p < |sends|
      ensures p * count + count <= |Concat(sends)| && Concat(sends)[p * count .. p * count + count] == sends[p]
    {
      ConcatBlock(sends, count, p);
    }
  }

  /** Every member's buffer holds at least `count` elements. */
  predicate AllHold(sends: seq<Buffer>, count: nat) {
    forall p :: 0 <= p < |sends| ==> count <= |sends[p]|
  }

  /** Element-wise sum of the first `count` elements of every buffer. */
  function SumPrefix(sends: seq<Buffer>, count: nat): (r: Buffer)
    requires AllHold(sends, count)
    ensures |r| == count
  {
    seq(count, n requires 0 <= n < count => SumAt(sends, n))
  }

  /** MPI_ALLREDUCE with MPI_SUM over `count` elements. */
  function AllReduceSum(sends: seq<Buffer>, count: nat): (r: Result<Buffer, CommFault>)
    ensures r.Ok? <==> AllHold(sends, count)
    ensures r.Ok? ==> |r.value| == count
    ensures r.Ok? ==> forall n :: 0 <= n < count ==> r.value[n] == SumAt(sends, n)
  {
    if AllHold(sends, count) then Ok(SumPrefix(sends, count)) else Err(OverRead)
  }

  /** MPI_ALLREDUCE with MPI_SUM of one scalar per member. */
  function AllReduceScalar(xs: seq<real>): (r: real)
    ensures r == Sum(xs)
  {
    var bufs := seq(|xs|, p requires 0 <= p < |xs| => [xs[p]]);
    SumOfSingletons(xs);
    AllReduceSum(bufs, 1).value[0]
  }

  lemma {:induction false} SumOfSingletons(xs: seq<real>)
    ensures SumAt(seq(|xs|, p requires 0 <= p < |xs| => [xs[p]]), 0) == Sum(xs)
  {
    if |xs| > 0 {
      var n := |xs| - 1;
      assert seq(|xs|, p requires 0 <= p < |xs| => [xs[p]])[..n] == seq(n, p requires 0 <= p < n => [xs[..n][p]]);
      SumOfSingletons(xs[..n]);
    }
  }

  /** `s` cut into consecutive pieces of the given lengths. */
  function Split(s: Buffer, counts: seq<nat>): (r: seq<Buffer>)
    requires |s| == Total(counts)
    ensures |r| == |counts|
    ensures forall q :: 0 <= q < |counts| ==> |r[q]| == counts[q]
  {
    if |counts| == 0 then []
    else [s[..counts[0]]] + Split(s[counts[0]..], counts[1..])
  }

  /** Laying the pieces end to end gives the buffer back. */
  lemma {:induction false} SplitConcat(s: Buffer, counts: seq<nat>)
    requires |s| == Total(counts)
    ensures Concat(Split(s, counts)) == s
  {
    if |counts| > 0 {
      SplitConcat(s[counts[0]..], counts[1..]);
      assert s == s[..counts[0]] + s[counts[0]..];
    }
  }

  /** Where piece q starts: the sum of the counts before it. */
  function Offset(counts: seq<nat>, q: nat): nat
    requires q <= |counts|
  {
    Total(counts[..q])
  }

  lemma {:induction false} TotalAppend(a: seq<nat>, b: seq<nat>)
    ensures Total(a + b) == Total(a) + Total(b)
  {
    if |a| == 0 {
      assert a + b == b;
    } else {
      assert (a + b)[1..] == a[1..] + b;
      TotalAppend(a[1..], b);
    }
  }

  /** Offsets past the first piece are the first count plus the offsets of the rest. */
  lemma OffsetStep(counts: seq<nat>, q: nat)
    requires 0 < q <= |counts|
    ensures Offset(counts, q) == counts[0] + Offset(counts[1..], q - 1)
  {
    assert counts[..q] == [counts[0]] + counts[1..][..q - 1];
    TotalAppend([counts[0]], counts[1..][..q - 1]);
  }

  /** Piece q ends inside the buffer. */
  lemma OffsetBound(counts: seq<nat>, q: nat)
    requires q < |counts|
    ensures Offset(counts, q) + counts[q] <= Total(counts)
  {
    assert counts == counts[..q] + ([counts[q]] + counts[q + 1..]);
    TotalAppend(counts[..q], [counts[q]] + counts[q + 1..]);
    TotalAppend([counts[q]], counts[q + 1..]);
  }

  /** Piece q of a split is the slice starting at `Offset(counts, q)`. */
  lemma {:induction false} SplitPiece(s: Buffer, counts: seq<nat>, q: nat)
    requires |s| == Total(counts) && q < |counts|
    ensures Offset(counts, q) + counts[q] <= |s|
    ensures Split(s, counts)[q] == s[Offset(counts, q) .. Offset(counts, q) + counts[q]]
  {
    OffsetBound(counts, q);
    if q > 0 {
      var rest := s[counts[0]..];
      var tail := Split(rest, counts[1..]);
      SplitPiece(rest, counts[1..], q - 1);
      OffsetStep(counts, q);
      assert Split(s, counts)[q] == tail[q - 1];
      var o := Offset(counts[1..], q - 1);
      assert counts[1..][q - 1] == counts[q];
      assert tail[q - 1] == rest[o .. o + counts[q]];
      assert rest[o .. o + counts[q]] == s[counts[0] + o .. counts[0] + o + counts[q]];
      assert Offset(counts, q) == counts[0] + o;
    } else {
      assert Offset(counts, 0) == 0 by { assert counts[..0] == []; }
      assert Split(s, counts)[0] == s[..counts[0]];
    }
  }

  /** MPI_REDUCE_SCATTER with MPI_SUM: the first Σ counts elements of every member's send
      buffer are summed element-wise and member q receives piece q, `counts[q]` long.
      `counts` has one entry per member. */
  function ReduceScatter(sends: seq<Buffer>, counts: seq<nat>): (r: Result<seq<Buffer>, CommFault>)
    requires |sends| == |counts|
    ensures r.Ok? <==> AllHold(sends, Total(counts))
    ensures r.Ok? ==> |r.value| == |counts|
    ensures r.Ok? ==> forall q :: 0 <= q < |counts| ==> |r.value[q]| == counts[q]
    ensures r.Ok? ==> Concat(r.value) == SumPrefix(sends, Total(counts))
  {
    if AllHold(sends, Total(counts)) then
      SplitConcat(SumPrefix(sends, Total(counts)), counts);
      Ok(Split(SumPrefix(sends, Total(counts)), counts))
    else Err(OverRead)
  }

  /** With equal counts c, member q receives the summed elements q·c .. q·c + c. */
  lemma ReduceScatterUniformPiece(sends: seq<Buffer>, counts: seq<nat>, c: nat, q: nat)
    requires |sends| == |counts| && q < |counts|
    requires forall t :: 0 <= t < |counts| ==> counts[t] == c
    requires ReduceScatter(sends, counts).Ok?
    ensures Total(counts) == |counts| * c
    ensures 0 <= q * c && q * c + c <= Total(counts)
    ensures ReduceScatter(sends, counts).value[q] == SumPrefix(sends, Total(counts))[q * c .. q * c + c]
  {
    TotalUniform(counts, c);
    TotalUniform(counts[..q], c);
    BlockEnd(q, |counts|, c);
    var sum := SumPrefix(sends, Total(counts));
    assert ReduceScatter(sends, counts).value == Split(sum, counts);
    assert Offset(counts, q) == q * c;
    SplitPiece(sum, counts, q);
  }

  /** Writing `src` at the start of the receive buffer `dst`; the rest of `dst` is untouched. */
  function Store(dst: Buffer, src: Buffer): (r: Result<Buffer, CommFault>)
    ensures r.Ok? <==> |src| <= |dst|
    ensures r.Ok? ==> |r.value| == |dst| && r.value[..|src|] == src && r.value[|src|..] == dst[|src|..]
  {
    if |src| <= |dst| then Ok(src + dst[|src|..]) else Err(Overflow)
  }
}
