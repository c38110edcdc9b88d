/**
 * stats_by_vDSP and stats_index_by_vDSP: reductions (sum, mean, max, ...)
 * over one axis of a row-contiguous mfarray, or over the whole buffer.
 * The vDSP reduction itself is the parameter `reduce` (or `pick`, for the
 * index variants such as vDSP_maxvi); what is modelled is which run of
 * the buffer each call reads and where its result goes.
 */
module Reduction {
  import opened MfCore
  import opened Shapes

  /** get_positive_axis: a negative axis counts from the end. */
  function PositiveAxis(axis: int, ndim: nat): (a: nat)
    requires -(ndim as int) <= axis < ndim as int
    ensures a < ndim
    ensures a as int == (if axis < 0 then axis + ndim as int else axis)
  {
    if axis < 0 then (axis + ndim as int) as nat else axis as nat
  }

  /** The run a vDSP kernel reads when given (pointer + base, stride, count). */
  function Strided(data: seq<real>, base: nat, stride: nat, count: nat): (r: seq<real>)
    requires count == 0 || base + (count - 1) * stride < |data|
    ensures |r| == count
  {
    seq(count, k requires 0 <= k < count =>
      MulMono(k, count - 1, stride); data[base + k * stride])
  }

  /** The elements along axis a at the remaining multi-index u, in axis order. */
  ghost function Lane(data: seq<real>, shape: seq<nat>, a: nat, u: seq<nat>): (r: seq<real>)
    requires |data| == Size(shape) && a < |shape| && InBounds(u, RemoveAt(shape, a))
    ensures |r| == shape[a]
  {
    seq(shape[a], k requires 0 <= k < shape[a] =>
      InsertInBounds(u, shape, a, k);
      OffsetInBounds(InsertAt(u, a, k), shape);
      data[Dot(InsertAt(u, a, k), RowMajorStrides(shape))])
  }

  /** The lane reduced into output slot d: the d-th remaining multi-index in row-major order. */
  ghost function LaneAt(data: seq<real>, shape: seq<nat>, a: nat, d: nat): (r: seq<real>)
    requires |data| == Size(shape) && a < |shape| && d < Size(RemoveAt(shape, a))
    ensures |r| == shape[a]
  {
    UnravelInBounds(d, RemoveAt(shape, a));
    Lane(data, shape, a, Unravel(d, RemoveAt(shape, a)))
  }

  lemma {:induction false} DotNonNegative(a: seq<nat>, b: seq<nat>)
    requires |a| == |b|
    ensures Dot(a, b) >= 0
  {
    if a != [] {
      DotNonNegative(a[1..], b[1..]);
    }
  }

  /**
   * The run the loop hands to the kernel for output slot d
   * (FlattenIndSequence's flat index, the axis stride, the axis extent)
   * lies inside the buffer and is exactly the lane of slot d.
   */
  lemma RunIsLane(data: seq<real>, shape: seq<nat>, a: nat, d: nat)
    requires |data| == Size(shape) && a < |shape| && d < Size(RemoveAt(shape, a))
    ensures var flat := Dot(Unravel(d, RemoveAt(shape, a)), RemoveAt(RowMajorStrides(shape), a));
      && flat >= 0
      && (shape[a] == 0 || flat + (shape[a] - 1) * RowMajorStrides(shape)[a] < |data|)
      && Strided(data, flat as nat, RowMajorStrides(shape)[a], shape[a]) == LaneAt(data, shape, a, d)
  {
    var rest := RemoveAt(shape, a);
    var st := RowMajorStrides(shape);
    var u := Unravel(d, rest);
    UnravelInBounds(d, rest);
    var flat := Dot(u, RemoveAt(st, a));
    DotNonNegative(u, RemoveAt(st, a));
    if shape[a] > 0 {
      LaneOffset(u, shape, a, shape[a] - 1);
      InsertInBounds(u, shape, a, shape[a] - 1);
      OffsetInBounds(InsertAt(u, a, shape[a] - 1), shape);
    }
    var run := Strided(data, flat as nat, st[a], shape[a]);
    var lane := LaneAt(data, shape, a, d);
    forall k | 0 <= k < shape[a] ensures run[k] == lane[k] {
      LaneOffset(u, shape, a, k);
    }
  }

  /** The output slot count is never zero while the loop runs, so the axis stride is positive. */
  lemma StridePositive(shape: seq<nat>, a: nat)
    requires a < |shape| && Size(RemoveAt(shape, a)) > 0
    ensures RowMajorStrides(shape)[a] > 0
  {
    SizeRemoveAt(shape, a);
    StrideAt(shape, a);
    PositiveFactor(Size(shape[..a]), Size(shape[a + 1..]));
  }

  lemma PositiveFactor(p: nat, q: nat)
    requires p * q > 0
    ensures q > 0
  {
  }

  /**
   * stats_by_vDSP. With an axis on an array of rank > 1 the result has the
   * input shape minus that axis (a size-1 axis put back when keepDims), one
   * output per remaining index written at consecutive slots 0, 1, 2, ...,
   * each the reduction of the lane along the axis. Otherwise one value,
   * the reduction of the whole buffer, of shape [1] or all ones.
   */
  method StatsByVDSP(data: seq<real>, shape: seq<nat>, axis: Option<int>, keepDims: bool,
                     reduce: seq<real> -> real)
    returns (r: MfArray)
    requires |data| == Size(shape)
    requires axis.Some? && |shape| > 1 ==> -|shape| <= axis.value < |shape|
    ensures r.strides == RowMajorStrides(r.shape)
    ensures axis.Some? && |shape| > 1 ==>
      var a := PositiveAxis(axis.value, |shape|);
      && r.shape == (if keepDims then InsertAt(RemoveAt(shape, a), a, 1) else RemoveAt(shape, a))
      && |r.data| == Size(RemoveAt(shape, a))
      && |r.data| * shape[a] == |data|
      && forall d :: 0 <= d < |r.data| ==> r.data[d] == reduce(LaneAt(data, shape, a, d))
    ensures !(axis.Some? && |shape| > 1) ==>
      && r.shape == (if keepDims then Ones(|shape|) else [1])
      && r.data == [reduce(data)]
  {
    if axis.Some? && |shape| > 1 {
      var a := PositiveAxis(axis.value, |shape|);
      var retShape := RemoveAt(shape, a);
      var count := shape[a];
      var strides := RowMajorStrides(shape);
      var retStrides := RemoveAt(strides, a);
      var stride := strides[a];
      var retSize := Size(retShape);
      var dst := new real[retSize];
      var dstOffset := 0;
      while dstOffset < retSize
        invariant 0 <= dstOffset <= retSize
        invariant forall d :: 0 <= d < dstOffset ==> dst[d] == reduce(LaneAt(data, shape, a, d))
      {
        RunIsLane(data, shape, a, dstOffset);
        // the flat index FlattenIndSequence yields for the dstOffset-th remaining index
        var flat: nat := Dot(Unravel(dstOffset, retShape), retStrides);
        dst[dstOffset] := reduce(Strided(data, flat, stride, count));
        dstOffset := dstOffset + 1;
      }
      SizeRemoveAt(shape, a);
      var outShape := if keepDims then InsertAt(retShape, a, 1) else retShape;
      r := MfArray(dst[..], outShape, RowMajorStrides(outShape));
    } else {
      assert Strided(data, 0, 1, |data|) == data;
      var v := reduce(Strided(data, 0, 1, |data|));
      var outShape := if keepDims then Ones(|shape|) else [1];
      r := MfArray([v], outShape, RowMajorStrides(outShape));
    }
  }

  /**
   * One call of the index kernel for output slot d: it reads the lane's run
   * and reports the chosen element as an offset in pointer units; dividing by
   * the axis stride gives back the position `pick` chose in that lane.
   */
  method LaneIndex(data: seq<real>, shape: seq<nat>, a: nat, d: nat, pick: seq<real> -> nat)
    returns (idx: nat)
    requires |data| == Size(shape) && a < |shape| && d < Size(RemoveAt(shape, a))
    ensures idx == pick(LaneAt(data, shape, a, d))
  {
    RunIsLane(data, shape, a, d);
    StridePositive(shape, a);
    var strides := RowMajorStrides(shape);
    var stride := strides[a];
    var flat: nat := Dot(Unravel(d, RemoveAt(shape, a)), RemoveAt(strides, a));
    var raw := pick(Strided(data, flat, stride, shape[a])) * stride;
    DivModUnique(pick(Strided(data, flat, stride, shape[a])), 0, stride);
    idx := raw / stride;
  }

  /**
   * stats_index_by_vDSP. The index kernel reports the chosen element as an
   * offset in pointer units, pick(run) * stride; the code divides it by the
   * axis stride, so each output is the position along the axis that `pick`
   * chose in that lane. Without an axis the raw whole-buffer index is kept.
   */
  method StatsIndexByVDSP(data: seq<real>, shape: seq<nat>, axis: Option<int>, keepDims: bool,
                          pick: seq<real> -> nat)
    returns (r: MfArray)
    requires |data| == Size(shape)
    requires axis.Some? && |shape| > 1 ==> -|shape| <= axis.value < |shape|
    ensures r.strides == RowMajorStrides(r.shape)
    ensures axis.Some? && |shape| > 1 ==>
      var a := PositiveAxis(axis.value, |shape|);
      && r.shape == (if keepDims then InsertAt(RemoveAt(shape, a), a, 1) else RemoveAt(shape, a))
      && |r.data| == Size(RemoveAt(shape, a))
      && forall d :: 0 <= d < |r.data| ==> r.data[d] == pick(LaneAt(data, shape, a, d)) as real
    ensures !(axis.Some? && |shape| > 1) ==>
      && r.shape == (if keepDims then Ones(|shape|) else [1])
      && r.data == [pick(data) as real]
  {
    if axis.Some? && |shape| > 1 {
      var a := PositiveAxis(axis.value, |shape|);
      var retShape := RemoveAt(shape, a);
      var count := shape[a];
      var strides := RowMajorStrides(shape);
      var retStrides := RemoveAt(strides, a);
      var stride := strides[a];
      var retSize := Size(retShape);
      var dst := new real[retSize];
      var dstOffset := 0;
      while dstOffset < retSize
        invariant 0 <= dstOffset <= retSize
        invariant forall d :: 0 <= d < dstOffset ==>
          dst[d] == pick(LaneAt(data, shape, a, d)) as real
      {
        var idx := LaneIndex(data, shape, a, dstOffset, pick);
        dst[dstOffset] := idx as real;
        dstOffset := dstOffset + 1;
      }
      var outShape := if keepDims then InsertAt(retShape, a, 1) else retShape;
      r := MfArray(dst[..], outShape, RowMajorStrides(outShape));
    } else {
      assert Strided(data, 0, 1, |data|) == data;
      var raw := pick(Strided(data, 0, 1, |data|));
      var outShape := if keepDims then Ones(|shape|) else [1];
      r := MfArray([raw as real], outShape, RowMajorStrides(outShape));
    }
  }
}
