/**
 * boolget_by_vDSP (the result-shape rule) and fancy1dgetcol_by_vDSP (the
 * 1-based gather offsets and what the gather then reads).
 */
module Indexing {
  import opened MfCore
  import opened Shapes

  /** Number of true (non-zero) entries of a boolean index buffer. */
  function CountTrue(ind: seq<real>): (n: nat)
    ensures n <= |ind|
  {
    if ind == [] then 0 else (if ind[0] != 0.0 then 1 else 0) + CountTrue(ind[1..])
  }

  /** The sum of a buffer (`indices.sum()`); over entries between 0 and 1 it lies between 0 and the length. */
  function Sum(s: seq<real>): (r: real)
    ensures (forall k :: 0 <= k < |s| ==> 0.0 <= s[k] <= 1.0) ==> 0.0 <= r <= |s| as real
  {
    if s == [] then 0.0 else s[0] + Sum(s[1..])
  }

  ghost predicate IsBoolBuffer(ind: seq<real>)
  {
    forall i :: 0 <= i < |ind| ==> ind[i] == 0.0 || ind[i] == 1.0
  }

  /** `true_num` is the sum of the index array; on a 0/1 buffer that is the number of trues. */
  lemma {:induction false} SumIsCountTrue(ind: seq<real>)
    requires IsBoolBuffer(ind)
    ensures Sum(ind) == CountTrue(ind) as real
  {
    if ind != [] {
      assert IsBoolBuffer(ind[1..]) by {
        forall i | 0 <= i < |ind[1..]| ensures ind[1..][i] == 0.0 || ind[1..][i] == 1.0 {
          assert ind[1..][i] == ind[i + 1];
        }
      }
      SumIsCountTrue(ind[1..]);
    }
  }

  /**
   * The shape boolget_by_vDSP gives its result: the number of trues, then
   * the source dimensions the (un-broadcast) index array does not cover.
   */
  function BoolGetShape(srcShape: seq<nat>, indNdim: nat, trueNum: nat): (r: seq<nat>)
    requires indNdim <= |srcShape|
    ensures |r| == 1 + |srcShape| - indNdim
    ensures r[0] == trueNum
    ensures forall i :: 1 <= i < |r| ==> r[i] == srcShape[indNdim + i - 1]
  {
    [trueNum] + srcShape[|srcShape| - (|srcShape| - indNdim)..]
  }

  /**
   * The result holds trueNum sub-arrays of the trailing shape, so it is never
   * larger than the source when the index array covers the leading axes.
   */
  lemma BoolGetSize(srcShape: seq<nat>, ind: seq<real>, indNdim: nat)
    requires indNdim <= |srcShape| && |ind| == Size(srcShape[..indNdim])
    ensures Size(BoolGetShape(srcShape, indNdim, CountTrue(ind))) == CountTrue(ind) * Size(srcShape[indNdim..])
    ensures Size(BoolGetShape(srcShape, indNdim, CountTrue(ind))) <= Size(srcShape)
  {
    var r := BoolGetShape(srcShape, indNdim, CountTrue(ind));
    assert r[1..] == srcShape[indNdim..];
    assert srcShape == srcShape[..indNdim] + srcShape[indNdim..];
    SizeAppend(srcShape[..indNdim], srcShape[indNdim..]);
    MulMono(CountTrue(ind), |ind|, Size(srcShape[indNdim..]));
  }

  /** An [n, m] array indexed by an [n] boolean array with k trues gives shape [k, m]. */
  lemma BoolGetRows(n: nat, m: nat, ind: seq<real>)
    requires |ind| == n
    ensures BoolGetShape([n, m], 1, CountTrue(ind)) == [CountTrue(ind), m]
  {
  }

  /** get_positive_index along the only axis: a negative index counts from the end. */
  function PositiveIndex(i: int, size: nat): (p: nat)
    requires -(size as int) <= i < size as int
    ensures p < size
    ensures p as int == i || p as int == i + size as int
    ensures i >= 0 <==> p as int == i
  {
    if i < 0 then (i + size as int) as nat else i as nat
  }

  /** The vDSP_vgathr kernel: c[k] is a[offsets[k] - 1] (offsets are 1-based). */
  function GatherOneBased(a: seq<real>, offsets: seq<nat>): (c: seq<real>)
    requires forall k :: 0 <= k < |offsets| ==> 1 <= offsets[k] <= |a|
    ensures |c| == |offsets|
  {
    seq(|offsets|, k requires 0 <= k < |offsets| => a[offsets[k] - 1])
  }

  /** The kernel's documented example: gathering [0, 2, 3, 1] at [1, 1, 3] gives [0, 0, 3]. */
  lemma GatherDocExample()
    ensures GatherOneBased([0.0, 2.0, 3.0, 1.0], [1, 1, 3]) == [0.0, 0.0, 3.0]
  {
  }

  ghost predicate IndicesInRange(idx: seq<int>, size: nat)
  {
    forall k :: 0 <= k < |idx| ==> -(size as int) <= idx[k] < size as int
  }

  /**
   * The offsets fancy1dgetcol_by_vDSP hands to vDSP_vgathr: the positive
   * index times the source stride, plus one for the kernel's 1-based
   * convention. Each must be a valid unsigned value inside the buffer.
   */
  function GatherOffsets(idx: seq<int>, size: nat, stride: int, bufLen: nat): (offs: seq<nat>)
    requires IndicesInRange(idx, size)
    requires forall k :: 0 <= k < |idx| ==> 0 <= PositiveIndex(idx[k], size) * stride < bufLen
    ensures |offs| == |idx|
    ensures forall k :: 0 <= k < |offs| ==> 1 <= offs[k] <= bufLen
    ensures forall k :: 0 <= k < |offs| ==> offs[k] - 1 == PositiveIndex(idx[k], size) * stride
  {
    seq(|idx|, k requires 0 <= k < |idx| => (PositiveIndex(idx[k], size) * stride + 1) as nat)
  }

  /**
   * fancy1dgetcol_by_vDSP on a 1-D source: element k of the result is the
   * source element at the (wrapped) index idx[k]; the result takes the index
   * array's shape and strides.
   */
  function Fancy1dGetCol(m: MfArray, idx: seq<int>, idxShape: seq<nat>, idxStrides: seq<int>): (r: MfArray)
    requires |m.shape| == 1 && |m.strides| == 1
    requires IndicesInRange(idx, Size(m.shape))
    requires forall k :: 0 <= k < |idx| ==>
      0 <= PositiveIndex(idx[k], Size(m.shape)) * m.strides[0] < |m.data|
    ensures r.shape == idxShape && r.strides == idxStrides
    ensures |r.data| == |idx|
    ensures forall k :: 0 <= k < |idx| ==>
      r.data[k] == m.data[PositiveIndex(idx[k], Size(m.shape)) * m.strides[0]]
  {
    var offs := GatherOffsets(idx, Size(m.shape), m.strides[0], |m.data|);
    MfArray(GatherOneBased(m.data, offs), idxShape, idxStrides)
  }

  /** On a contiguous source, index -1 picks the last element and a non-negative index picks itself. */
  lemma FancyContiguous(data: seq<real>, idx: seq<int>, k: nat)
    requires |data| > 0 && k < |idx| && IndicesInRange(idx, |data|)
    ensures var r := Fancy1dGetCol(MfArray(data, [|data|], [1]), idx, [|idx|], [1]);
      && (idx[k] >= 0 ==> r.data[k] == data[idx[k]])
      && (idx[k] == -1 ==> r.data[k] == data[|data| - 1])
  {
    var m := MfArray(data, [|data|], [1]);
    assert Size(m.shape) == |data|;
  }
}
