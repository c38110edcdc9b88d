/**
 * dotpr_by_vDSP: the contraction of a left operand's rows with the rows of
 * the right operand transposed on its last two axes. What is modelled is
 * the result shape, the loop sizes and the cell each kernel call writes;
 * vDSP_dotpr is the function `RealDot`.
 */
module DotProduct {
  import opened MfCore
  import opened Shapes
  import opened Blocks

  /**
   * The vDSP_dotpr kernel: the sum of the products of two runs of equal
   * length. A run dotted with itself is a sum of squares, never negative.
   */
  function RealDot(a: seq<real>, b: seq<real>): (d: real)
    requires |a| == |b|
    ensures a == b ==> d >= 0.0
  {
    if a == [] then 0.0 else RealDot(a[..|a| - 1], b[..|b| - 1]) + a[|a| - 1] * b[|b| - 1]
  }

  /** The left shape without its last entry. */
  function LRestShape(l: seq<nat>): (s: seq<nat>)
    requires |l| >= 1
    ensures |s| == |l| - 1
  {
    l[..|l| - 1]
  }

  /** The right shape without its second-to-last entry. */
  function RRestShape(r: seq<nat>): (s: seq<nat>)
    requires |r| >= 2
    ensures |s| == |r| - 1
  {
    r[..|r| - 2] + r[|r| - 1..]
  }

  /** The loop sizes and result shape dotpr_by_vDSP computes. */
  datatype DotprPlan = DotprPlan(size: nat, lRestSize: nat, rRestSize: nat, retShape: seq<nat>)

  function RestSize(s: seq<nat>): (n: nat)
    ensures n == Size(s)
  {
    if |s| > 0 then Size(s) else 1
  }

  /** The plan as written: the contraction length is taken from l_shape[0]. */
  function DotprPlanAsWritten(l: seq<nat>, r: seq<nat>): (p: DotprPlan)
    requires |l| >= 1 && |r| >= 2
    ensures p.retShape == LRestShape(l) + RRestShape(r)
    ensures p.size == l[0]
  {
    DotprPlan(l[0], RestSize(LRestShape(l)), Size(RRestShape(r)), LRestShape(l) + RRestShape(r))
  }

  /**
   * With l = [3, 2] and r = [2, 3] the shape assert l_shape[0] == r_shape[1]
   * passes, yet the left rows read with the as-written length 3 run to
   * element 9 of a 6-element buffer (and likewise on the right).
   */
  lemma DotprAsWrittenOverreads()
    ensures var p := DotprPlanAsWritten([3, 2], [2, 3]);
      && [3, 2][0] == [2, 3][1]
      && p.retShape == [3, 3]
      && p.lRestSize * p.size > Size([3, 2])
      && p.rRestSize * p.size > Size([2, 3])
  {
    var p := DotprPlanAsWritten([3, 2], [2, 3]);
    assert LRestShape([3, 2]) == [3];
    assert RRestShape([2, 3]) == [3];
    assert Size([3]) == 3;
    assert Size([3, 2]) == 6 by {
      assert [3, 2][1..] == [2];
    }
    assert Size([2, 3]) == 6 by {
      assert [2, 3][1..] == [3];
    }
  }

  /** The contraction length as evidently intended: the shared axis, the left operand's last dimension. */
  function DotprPlanCorrected(l: seq<nat>, r: seq<nat>): (p: DotprPlan)
    requires |l| >= 1 && |r| >= 2
    ensures p.retShape == LRestShape(l) + RRestShape(r)
    ensures p.size == l[|l| - 1]
  {
    DotprPlan(l[|l| - 1], RestSize(LRestShape(l)), Size(RRestShape(r)), LRestShape(l) + RRestShape(r))
  }

  /**
   * Where the program as written is right: when the left operand's first and
   * last dimensions agree (any square matrix), the as-written plan is the
   * corrected one.
   */
  lemma DotprPlansAgree(l: seq<nat>, r: seq<nat>)
    requires |l| >= 1 && |r| >= 2 && l[0] == l[|l| - 1]
    ensures DotprPlanAsWritten(l, r) == DotprPlanCorrected(l, r)
  {
  }

  /** The left rows: l_rest_size runs of the last dimension cover the left buffer. */
  lemma LeftFits(l: seq<nat>)
    requires |l| >= 1
    ensures RestSize(LRestShape(l)) * l[|l| - 1] == Size(l)
  {
    assert l == LRestShape(l) + [l[|l| - 1]];
    SizeAppend(LRestShape(l), [l[|l| - 1]]);
    assert Size([l[|l| - 1]]) == l[|l| - 1];
  }

  /** The right rows after the swap of the last two axes: r_rest_size runs of r_shape[-2]. */
  lemma RightFits(r: seq<nat>)
    requires |r| >= 2
    ensures Size(RRestShape(r)) * r[|r| - 2] == Size(r)
  {
    var pre, x, y := r[..|r| - 2], r[|r| - 2], r[|r| - 1];
    SplitLastTwo(r);
    SwapLastTwo(pre, x, y);
  }

  lemma SwapLastTwo(pre: seq<nat>, x: nat, y: nat)
    ensures Size(pre + [y]) * x == Size(pre + [x] + [y])
  {
    SizeSnoc(pre + [x], y);
    SizeSnoc(pre, x);
    SizeSnoc(pre, y);
    MulSwap(Size(pre), x, y);
  }

  lemma MulSwap(a: nat, b: nat, c: nat)
    ensures a * c * b == a * b * c
  {
  }

  /**
   * When the shared axes agree, the corrected plan reads exactly the left
   * buffer and the transposed right buffer, row by row, and the result has
   * one cell per (left row, right row) pair.
   */
  lemma DotprPlanFits(l: seq<nat>, r: seq<nat>)
    requires |l| >= 1 && |r| >= 2 && l[|l| - 1] == r[|r| - 2]
    ensures var p := DotprPlanCorrected(l, r);
      && p.lRestSize * p.size == Size(l)
      && p.rRestSize * p.size == Size(r)
      && Size(p.retShape) == p.lRestSize * p.rRestSize
  {
    LeftFits(l);
    RightFits(r);
    SizeAppend(LRestShape(l), RRestShape(r));
  }

  /** The value the loop stores in flat cell c: row c / R of the left times row c % R of the transposed right. */
  ghost function CellValue(lData: seq<real>, rtData: seq<real>, size: nat, bigL: nat, bigR: nat, c: nat): real
    requires |lData| == bigL * size && |rtData| == bigR * size && c < bigL * bigR
  {
    CellFits(c, bigL, bigR, size);
    RealDot(Block(lData, c / bigR, size), Block(rtData, c % bigR, size))
  }

  /** Cell l_ind * R + r_ind holds the dot product of left row l_ind and transposed-right row r_ind. */
  lemma CellValueAt(lData: seq<real>, rtData: seq<real>, size: nat, bigL: nat, bigR: nat, i: nat, j: nat)
    requires |lData| == bigL * size && |rtData| == bigR * size && i < bigL && j < bigR
    ensures i * bigR + j < bigL * bigR
    ensures (i + 1) * size <= |lData| && (j + 1) * size <= |rtData|
    ensures CellValue(lData, rtData, size, bigL, bigR, i * bigR + j)
         == RealDot(Block(lData, i, size), Block(rtData, j, size))
  {
    DivModUnique(i, j, bigR);
    RowFits(i, bigL, bigR);
    RowFits(i, bigL, size);
    RowFits(j, bigR, size);
  }

  /**
   * dotpr_by_vDSP with the corrected contraction length, over the row-major
   * left buffer and the row-major buffer of the right operand transposed on
   * its last two axes. Every cell 0 .. L*R-1 of the new buffer is written,
   * in order, with the dot product of its left and right rows.
   */
  method DotprByVDSP(lData: seq<real>, lShape: seq<nat>, rtData: seq<real>, rShape: seq<nat>)
    returns (res: MfArray)
    requires |lShape| >= 1 && |rShape| >= 2 && lShape[|lShape| - 1] == rShape[|rShape| - 2]
    requires |lData| == Size(lShape) && |rtData| == Size(rShape)
    ensures res.shape == LRestShape(lShape) + RRestShape(rShape)
    ensures res.strides == RowMajorStrides(res.shape)
    ensures |res.data| == Size(res.shape)
    ensures var p := DotprPlanCorrected(lShape, rShape);
      && |lData| == p.lRestSize * p.size && |rtData| == p.rRestSize * p.size
      && |res.data| == p.lRestSize * p.rRestSize
      && forall c :: 0 <= c < |res.data| ==>
           res.data[c] == CellValue(lData, rtData, p.size, p.lRestSize, p.rRestSize, c)
  {
    var p := DotprPlanCorrected(lShape, rShape);
    DotprPlanFits(lShape, rShape);
    var size, lRestSize, rRestSize, retShape := p.size, p.lRestSize, p.rRestSize, p.retShape;
    var dst := new real[lRestSize * rRestSize];
    var li := 0;
    while li < lRestSize
      invariant 0 <= li <= lRestSize
      invariant li * rRestSize <= lRestSize * rRestSize
      invariant forall c :: 0 <= c < li * rRestSize ==>
        dst[c] == CellValue(lData, rtData, size, lRestSize, rRestSize, c)
    {
      RowFits(li, lRestSize, rRestSize);
      DotprRow(lData, rtData, size, lRestSize, rRestSize, li, dst);
      li := li + 1;
    }
    res := MfArray(dst[..], retShape, RowMajorStrides(retShape));
  }

  /**
   * The inner loop of dotpr_by_vDSP for one left row l_ind: cells
   * l_ind * R .. l_ind * R + R - 1 receive the dot products with the R
   * transposed-right rows; every other cell keeps its value.
   */
  method DotprRow(lData: seq<real>, rtData: seq<real>, size: nat, bigL: nat, bigR: nat, li: nat, dst: array<real>)
    requires |lData| == bigL * size && |rtData| == bigR * size && li < bigL
    requires dst.Length == bigL * bigR
    modifies dst
    ensures li * bigR + bigR <= dst.Length
    ensures forall c :: li * bigR <= c < li * bigR + bigR ==>
      dst[c] == CellValue(lData, rtData, size, bigL, bigR, c)
    ensures forall c :: 0 <= c < dst.Length && !(li * bigR <= c < li * bigR + bigR) ==> dst[c] == old(dst[c])
  {
    RowFits(li, bigL, bigR);
    RowFits(li, bigL, size);
    var base := li * bigR;
    var lrow := Block(lData, li, size);
    var ri := 0;
    while ri < bigR
      invariant 0 <= ri <= bigR
      invariant forall c :: base <= c < base + ri ==>
        dst[c] == CellValue(lData, rtData, size, bigL, bigR, c)
      invariant forall c :: 0 <= c < dst.Length && !(base <= c < base + ri) ==> dst[c] == old(dst[c])
    {
      CellValueAt(lData, rtData, size, bigL, bigR, li, ri);
      dst[base + ri] := RealDot(lrow, Block(rtData, ri, size));
      ri := ri + 1;
    }
  }

  /** Column j of a row-major [k, n] buffer. */
  function Column(r: seq<real>, k: nat, n: nat, j: nat): (col: seq<real>)
    requires |r| == k * n && j < n
    ensures |col| == k
  {
    seq(k, t requires 0 <= t < k => (MulLe(t + 1, k, n); r[t * n + j]))
  }

  /** Row j of the transposed buffer is column j of the original. */
  lemma TransposedRow(r: seq<real>, k: nat, n: nat, j: nat)
    requires |r| == k * n && j < n
    ensures (j + 1) * k <= n * k
    ensures Block(Transposed(r, k, n), j, k) == Column(r, k, n, j)
  {
    RowFits(j, n, k);
    var b := Block(Transposed(r, k, n), j, k);
    forall t | 0 <= t < k ensures b[t] == Column(r, k, n, j)[t] {
      DivModUnique(j, t, k);
      assert b[t] == Transposed(r, k, n)[j * k + t];
    }
  }

  /**
   * On a [m, k] left and a [k, n] right operand dotpr_by_vDSP (corrected) is
   * the matrix product: the [m, n] cell (i, j) is row i of the left times
   * column j of the right.
   */
  lemma MatrixProduct(lData: seq<real>, rData: seq<real>, m: nat, k: nat, n: nat, i: nat, j: nat)
    requires |lData| == m * k && |rData| == k * n && i < m && j < n
    ensures var p := DotprPlanCorrected([m, k], [k, n]);
      && p.size == k && p.lRestSize == m && p.rRestSize == n && p.retShape == [m, n]
    ensures i * n + j < m * n && (i + 1) * k <= m * k
    ensures CellValue(lData, Transposed(rData, k, n), k, m, n, i * n + j)
         == RealDot(Block(lData, i, k), Column(rData, k, n, j))
  {
    assert LRestShape([m, k]) == [m];
    assert RRestShape([k, n]) == [n];
    assert Size([m]) == m && Size([n]) == n;
    CellValueAt(lData, Transposed(rData, k, n), k, m, n, i, j);
    TransposedRow(rData, k, n, j);
  }
}
