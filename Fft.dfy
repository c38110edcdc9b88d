/**
 * fft_zr_by_vDSP: the transform length, the row layout of the real-to-complex
 * batch, the repacking of the Nyquist coefficient and the final halving. The
 * zrop kernel itself is a pair of function parameters: the real and the
 * imaginary part of output j for a given input row.
 */
module Fft {
  import opened MfCore
  import opened Shapes
  import opened Blocks

  function Pow2(k: nat): (p: nat)
    ensures p >= 1
  {
    if k == 0 then 1 else 2 * Pow2(k - 1)
  }

  /** Int(log2(Float(n))) for n >= 1: the logarithm truncated toward zero. */
  function FloorLog2(n: nat): (e: nat)
    requires n >= 1
    ensures Pow2(e) <= n < 2 * Pow2(e)
  {
    if n == 1 then 0 else 1 + FloorLog2(n / 2)
  }

  /** The truncated logarithm of a power of two is its exponent. */
  lemma {:induction false} FloorLog2Pow2(k: nat)
    ensures FloorLog2(Pow2(k)) == k
  {
    var e := FloorLog2(Pow2(k));
    assert Pow2(e) <= Pow2(k) < 2 * Pow2(e);
    assert Pow2(e + 1) == 2 * Pow2(e);
    Pow2Strict(k, e);
    Pow2Strict(e + 1, k);
  }

  lemma {:induction false} Pow2Strict(a: nat, b: nat)
    ensures a < b ==> Pow2(a) < Pow2(b)
    ensures a <= b ==> Pow2(a) <= Pow2(b)
    decreases b
  {
    if a < b {
      Pow2Strict(a, b - 1);
    }
  }

  /** A power of two from 2 up is even. */
  lemma Pow2Even(k: nat)
    requires k >= 1
    ensures Pow2(k) % 2 == 0
  {
  }

  /** The transform length as written: 2 to the truncated log2 of the requested number. */
  function ProcessNumberAsWritten(number: nat): (p: nat)
    requires number >= 1
    ensures p <= number < 2 * p
  {
    Pow2(FloorLog2(number))
  }

  /**
   * The as-written length never exceeds the requested number, and reaches it
   * exactly when the number is a power of two: so the assert
   * process_number >= number only holds for powers of two, and the
   * zero-padding branch (process_number > number) can never run.
   */
  lemma AsWrittenNeverPads(number: nat)
    requires number >= 1
    ensures ProcessNumberAsWritten(number) <= number
    ensures ProcessNumberAsWritten(number) >= number <==> Pow2(FloorLog2(number)) == number
  {
  }

  /** Requesting 3 points gives process_number 2 < 3 as written; the evident intent is 4. */
  lemma ProcessNumberThree()
    ensures ProcessNumberAsWritten(3) == 2
    ensures ProcessNumberCorrected(3) == 4
  {
    assert FloorLog2(3) == 1 by {
      assert FloorLog2(1) == 0;
    }
  }

  /** The exponent of the least power of two not below n. */
  function CeilLog2(n: nat): nat
    requires n >= 1
  {
    if Pow2(FloorLog2(n)) == n then FloorLog2(n) else FloorLog2(n) + 1
  }

  /** The transform length as evidently intended: the least power of two >= number. */
  function ProcessNumberCorrected(number: nat): (p: nat)
    requires number >= 1
  {
    Pow2(CeilLog2(number))
  }

  /**
   * The corrected length is a power of two, at least the requested number, less
   * than twice it, no larger than any power of two that covers the number, and
   * equal to the as-written value whenever the number is already a power of two.
   */
  lemma ProcessNumberCorrectedSpec(number: nat, k: nat)
    requires number >= 1
    ensures number <= ProcessNumberCorrected(number) < 2 * number
    ensures Pow2(k) >= number ==> Pow2(k) >= ProcessNumberCorrected(number)
    ensures Pow2(k) == number ==> ProcessNumberCorrected(number) == ProcessNumberAsWritten(number)
  {
    Pow2Strict(k, FloorLog2(number));
    Pow2Strict(CeilLog2(number), k);
    Pow2Strict(FloorLog2(number), k);
  }

  /** The row layout of the batch: see FftPlanAsWritten and FftPlanCorrected. */
  datatype FftPlan = FftPlan(
    log2N: nat,            // blocklog2N
    processNumber: nat,    // process_number, the transform length N
    srcExtent: nat,        // length of each row of the prepared (truncated or padded) source
    srcRow: nat,           // distance between the rows the loop reads
    dstRow: nat,           // blocksize_dst = N/2 + 1
    loopnum: nat,          // number of rows transformed
    packedShape: seq<nat>, // the shape of the new buffer (row-major)
    retShape: seq<nat>)    // the shape after moving the last axis back to `axis`

  /** `number ?? blocksize_src` */
  function Requested(shape: seq<nat>, axis: nat, number: Option<nat>): (r: nat)
    requires axis < |shape|
    ensures number == Some(r) || (number.None? && r == shape[axis])
  {
    if number.Some? then number.value else shape[axis]
  }

  /** moveaxis(src: -1, dst: axis) on a shape. */
  function MoveLastTo(s: seq<nat>, axis: nat): (r: seq<nat>)
    requires |s| >= 1 && axis < |s|
    ensures |r| == |s|
  {
    InsertAt(s[..|s| - 1], axis, s[|s| - 1])
  }

  /**
   * The layout as written. The prepared source is cut to `number` along the
   * axis when that is shorter, and padded to process_number only when
   * process_number > number. Rows are read blocksize_src apart, the new
   * buffer's shape replaces the LAST dimension and loopnum is the size of
   * the other dimensions of that shape.
   */
  function FftPlanAsWritten(shape: seq<nat>, axis: nat, number: nat): (p: FftPlan)
    requires axis < |shape| && number >= 1
    ensures p.processNumber == ProcessNumberAsWritten(number)
    ensures |p.packedShape| == |shape| && p.packedShape[|shape| - 1] == p.dstRow
  {
    var n := ProcessNumberAsWritten(number);
    var extent := if n > number then n else if number < shape[axis] then number else shape[axis];
    var packed := shape[|shape| - 1 := n / 2 + 1];
    FftPlan(FloorLog2(number), n, extent, shape[axis], n / 2 + 1,
            Size(packed[..|packed| - 1]), packed, MoveLastTo(packed, axis))
  }

  /**
   * The layout as evidently intended: the prepared rows hold exactly N
   * samples (truncated to `number` and zero-padded to N), rows are read N
   * apart, there is one row per index of the other axes, and the
   * transformed axis is the one replaced by N/2 + 1.
   */
  function FftPlanCorrected(shape: seq<nat>, axis: nat, number: nat): (p: FftPlan)
    requires axis < |shape| && number >= 1
    ensures p.processNumber == ProcessNumberCorrected(number)
    ensures p.srcExtent == p.srcRow == p.processNumber
    ensures p.dstRow == p.processNumber / 2 + 1
  {
    var n := ProcessNumberCorrected(number);
    var rest := RemoveAt(shape, axis);
    var packed := rest + [n / 2 + 1];
    FftPlan(CeilLog2(number), n, n, n, n / 2 + 1, Size(rest), packed, MoveLastTo(packed, axis))
  }

  /** Number of rows of the prepared source: one per index of the axes other than `axis`. */
  function SourceRows(shape: seq<nat>, axis: nat): nat
    requires axis < |shape|
  {
    Size(RemoveAt(shape, axis))
  }

  /**
   * Every row the kernel reads (N/2 split-complex elements from i * srcRow)
   * lies in the prepared source, and every row it writes lies in the new
   * buffer.
   */
  ghost predicate PlanFits(p: FftPlan, shape: seq<nat>, axis: nat)
    requires axis < |shape|
  {
    && (p.loopnum == 0 || (p.loopnum - 1) * p.srcRow + p.processNumber / 2 <= SourceRows(shape, axis) * p.srcExtent)
    && p.loopnum * p.dstRow == Size(p.packedShape)
  }

  /** The corrected layout always fits, and its result shape is the input shape with the axis resized. */
  lemma CorrectedPlanFits(shape: seq<nat>, axis: nat, number: nat)
    requires axis < |shape| && number >= 1
    ensures PlanFits(FftPlanCorrected(shape, axis, number), shape, axis)
    ensures var p := FftPlanCorrected(shape, axis, number);
      p.retShape == shape[axis := p.dstRow] && p.loopnum == SourceRows(shape, axis)
  {
    var p := FftPlanCorrected(shape, axis, number);
    var rest := RemoveAt(shape, axis);
    SizeSnoc(rest, p.dstRow);
    if p.loopnum > 0 {
      LastRowFits(p.loopnum, p.processNumber, p.loopnum * p.processNumber);
    }
    assert p.packedShape[..|p.packedShape| - 1] == rest;
    assert p.retShape == shape[axis := p.dstRow];
  }

  /**
   * Where the program as written is right: transforming the last axis at its
   * own length, when that length is a power of two, the as-written layout is
   * the corrected one.
   */
  lemma FftPlansAgreeOnPowerOfTwo(shape: seq<nat>, k: nat)
    requires |shape| >= 1 && shape[|shape| - 1] == Pow2(k)
    ensures var last := |shape| - 1;
      FftPlanAsWritten(shape, last, shape[last]) == FftPlanCorrected(shape, last, shape[last])
  {
    var last := |shape| - 1;
    FloorLog2Pow2(k);
    var n := Pow2(k);
    var packed := shape[last := n / 2 + 1];
    assert RemoveAt(shape, last) == packed[..last] == shape[..last];
    assert packed == RemoveAt(shape, last) + [n / 2 + 1];
  }

  /**
   * Truncation read past the source: shape [2, 8] on axis 1 with number 4
   * prepares rows of 4 samples (8 in all) but reads row 1 from element 8.
   */
  lemma AsWrittenTruncationOverreads()
    ensures var p := FftPlanAsWritten([2, 8], 1, 4);
      && p.processNumber == 4 && p.srcExtent == 4 && p.srcRow == 8 && p.loopnum == 2
      && !PlanFits(p, [2, 8], 1)
    ensures PlanFits(FftPlanCorrected([2, 8], 1, 4), [2, 8], 1)
  {
    FloorLog2Four();
    assert RemoveAt([2, 8], 1) == [2];
    assert Size([2]) == 2;
    CorrectedPlanFits([2, 8], 1, 4);
  }

  lemma FloorLog2Four()
    ensures FloorLog2(4) == 2 && Pow2(2) == 4
    ensures ProcessNumberAsWritten(4) == 4 && ProcessNumberCorrected(4) == 4
  {
    assert FloorLog2(2) == 1 by {
      assert FloorLog2(1) == 0;
    }
  }

  /**
   * Transforming a leading axis: shape [4, 2] on axis 0 with 4 points gives
   * the new buffer shape [4, 3] (the last axis resized), 4 rows read 4 apart
   * from a prepared source of 2 rows, and result shape [3, 4] instead of [3, 2].
   */
  lemma AsWrittenLeadingAxis()
    ensures var p := FftPlanAsWritten([4, 2], 0, 4);
      && p.packedShape == [4, 3] && p.loopnum == 4 && p.srcRow == 4
      && p.retShape == [3, 4]
      && !PlanFits(p, [4, 2], 0)
    ensures FftPlanCorrected([4, 2], 0, 4).retShape == [3, 2]
  {
    FloorLog2Four();
    var p := FftPlanAsWritten([4, 2], 0, 4);
    assert p.packedShape == [4, 3];
    assert p.packedShape[..1] == [4];
    assert Size([4]) == 4;
    assert RemoveAt([4, 2], 0) == [2];
    assert Size([2]) == 2;
    assert MoveLastTo([4, 3], 0) == [3, 4];
    var q := FftPlanCorrected([4, 2], 0, 4);
    assert q.packedShape == [2, 3];
    assert MoveLastTo([2, 3], 0) == [3, 2];
  }

  /**
   * Padding is decided against `number`, not against the axis extent: on
   * shape [2] with number 8 nothing is padded, the prepared row keeps its 2
   * samples and the kernel reads 4 split-complex elements (8 values) from it.
   */
  lemma AsWrittenMissingPad()
    ensures var p := FftPlanAsWritten([2], 0, 8);
      && p.processNumber == 8 && p.srcExtent == 2 && !PlanFits(p, [2], 0)
    ensures PlanFits(FftPlanCorrected([2], 0, 8), [2], 0)
  {
    assert FloorLog2(8) == 3 by {
      assert FloorLog2(4) == 2 by {
        FloorLog2Four();
      }
    }
    assert Pow2(3) == 8;
    assert CeilLog2(8) == 3;
    assert RemoveAt([2], 0) == [];
    CorrectedPlanFits([2], 0, 8);
  }

  /** A transformed batch: the real and imaginary planes, row-major in packedShape, viewed as shape. */
  datatype ComplexArray = ComplexArray(re: seq<real>, im: seq<real>, packedShape: seq<nat>, shape: seq<nat>)

  /** The N/2 split-complex elements the kernel reads for row i of a source of rows of N. */
  function KernelInput(src: seq<real>, n: nat, bigL: nat, i: nat): (row: seq<real>)
    requires |src| == bigL * n && i < bigL
    ensures |row| == n / 2
  {
    RowFits(i, bigL, n);
    src[i * n..i * n + n / 2]
  }

  /**
   * The real part of flat cell c of the new buffer before the halving: the
   * kernel's real outputs for slots 0 .. N/2 - 1 of row c / (N/2 + 1), and
   * in the last slot the negated Nyquist coefficient the kernel leaves in
   * imag[0].
   */
  ghost function PackedRe(src: seq<real>, n: nat, bigL: nat, zrRe: (seq<real>, nat) -> real,
                          zrIm: (seq<real>, nat) -> real, c: nat): (x: real)
    requires |src| == bigL * n && c < bigL * (n / 2 + 1)
    ensures c / (n / 2 + 1) < bigL
    ensures c % (n / 2 + 1) == n / 2 ==> x == -zrIm(KernelInput(src, n, bigL, c / (n / 2 + 1)), 0)
  {
    CellFits(c, bigL, n / 2 + 1, 0);
    var row := KernelInput(src, n, bigL, c / (n / 2 + 1));
    var j := c % (n / 2 + 1);
    if j < n / 2 then zrRe(row, j) else -zrIm(row, 0)
  }

  /** The imaginary part of flat cell c before the halving: zero in the first and the last slot of each row. */
  ghost function PackedIm(src: seq<real>, n: nat, bigL: nat, zrRe: (seq<real>, nat) -> real,
                          zrIm: (seq<real>, nat) -> real, c: nat): (y: real)
    requires |src| == bigL * n && c < bigL * (n / 2 + 1)
    ensures c % (n / 2 + 1) == 0 || c % (n / 2 + 1) == n / 2 ==> y == 0.0
  {
    CellFits(c, bigL, n / 2 + 1, 0);
    var row := KernelInput(src, n, bigL, c / (n / 2 + 1));
    var j := c % (n / 2 + 1);
    if 0 < j < n / 2 then zrIm(row, j) else 0.0
  }

  /**
   * Row i of the packed half-spectrum, slot by slot: the kernel's outputs in
   * slots 0 .. N/2 - 1 except imag[0], which is cleared, and the Nyquist
   * coefficient moved to the real part of slot N/2 with its sign flipped,
   * that slot's imaginary part zero. The DC and Nyquist bins are real.
   */
  lemma PackedRow(src: seq<real>, n: nat, bigL: nat, zrRe: (seq<real>, nat) -> real,
                  zrIm: (seq<real>, nat) -> real, i: nat, j: nat)
    requires |src| == bigL * n && i < bigL && j <= n / 2
    ensures i * (n / 2 + 1) + j < bigL * (n / 2 + 1)
    ensures var c, row := i * (n / 2 + 1) + j, KernelInput(src, n, bigL, i);
      && PackedRe(src, n, bigL, zrRe, zrIm, c) == (if j < n / 2 then zrRe(row, j) else -zrIm(row, 0))
      && PackedIm(src, n, bigL, zrRe, zrIm, c) == (if 0 < j < n / 2 then zrIm(row, j) else 0.0)
  {
    RowFits(i, bigL, n / 2 + 1);
    DivModUnique(i, j, n / 2 + 1);
  }

  /** `ret / 2`: every element halved, undoing the zrop convention of a doubled result. */
  function Halve(s: seq<real>): (t: seq<real>)
    ensures |t| == |s|
    ensures forall k :: 0 <= k < |s| ==> t[k] * 2.0 == s[k]
  {
    seq(|s|, k requires 0 <= k < |s| => s[k] / 2.0)
  }

  /**
   * One iteration of the row loop of fft_zr_by_vDSP: the kernel writes the
   * N/2 outputs of row i at i * (N/2 + 1), then the Nyquist coefficient is
   * moved from imag[0] to the last real slot and imag[0] is cleared. The
   * last imaginary slot is never written, so it keeps the buffer's zero.
   */
  method PackRow(src: seq<real>, n: nat, bigL: nat, zrRe: (seq<real>, nat) -> real,
                 zrIm: (seq<real>, nat) -> real, i: nat, re: array<real>, im: array<real>)
    requires n >= 2 && |src| == bigL * n && i < bigL && re != im
    requires re.Length == bigL * (n / 2 + 1) && im.Length == bigL * (n / 2 + 1)
    requires i * (n / 2 + 1) + n / 2 < im.Length && im[i * (n / 2 + 1) + n / 2] == 0.0
    modifies re, im
    ensures forall c :: i * (n / 2 + 1) <= c < i * (n / 2 + 1) + (n / 2 + 1) ==>
      c < re.Length && re[c] == PackedRe(src, n, bigL, zrRe, zrIm, c) && im[c] == PackedIm(src, n, bigL, zrRe, zrIm, c)
    ensures forall c :: 0 <= c < re.Length && !(i * (n / 2 + 1) <= c < i * (n / 2 + 1) + (n / 2 + 1)) ==>
      re[c] == old(re[c]) && im[c] == old(im[c])
  {
    var h := n / 2;
    var blocksize := h + 1;
    RowFits(i, bigL, blocksize);
    var base := i * blocksize;
    var row := KernelInput(src, n, bigL, i);
    KernelOutputs(row, h, base, zrRe, zrIm, re, im);
    re[base + blocksize - 1] := -1.0 * im[base];
    im[base] := 0.0;
    forall c | base <= c < base + blocksize
      ensures c < re.Length && re[c] == PackedRe(src, n, bigL, zrRe, zrIm, c) && im[c] == PackedIm(src, n, bigL, zrRe, zrIm, c)
    {
      PackedRow(src, n, bigL, zrRe, zrIm, i, c - base);
    }
  }

  /** The kernel's h outputs for one row land at re/im[base .. base + h]; nothing else changes. */
  method KernelOutputs(row: seq<real>, h: nat, base: nat, zrRe: (seq<real>, nat) -> real,
                       zrIm: (seq<real>, nat) -> real, re: array<real>, im: array<real>)
    requires re != im && base + h <= re.Length && re.Length == im.Length
    modifies re, im
    ensures forall c :: base <= c < base + h ==> re[c] == zrRe(row, c - base) && im[c] == zrIm(row, c - base)
    ensures forall c :: 0 <= c < re.Length && !(base <= c < base + h) ==> re[c] == old(re[c]) && im[c] == old(im[c])
  {
    var j := 0;
    while j < h
      invariant 0 <= j <= h
      invariant forall c :: base <= c < base + j ==> re[c] == zrRe(row, c - base) && im[c] == zrIm(row, c - base)
      invariant forall c :: 0 <= c < re.Length && !(base <= c < base + j) ==> re[c] == old(re[c]) && im[c] == old(im[c])
    {
      re[base + j] := zrRe(row, j);
      im[base + j] := zrIm(row, j);
      j := j + 1;
    }
  }

  /**
   * The row loop of fft_zr_by_vDSP over a zero-initialised buffer of
   * bigL rows of N/2 + 1 slots: every cell ends up packed.
   */
  method PackRows(src: seq<real>, n: nat, bigL: nat, zrRe: (seq<real>, nat) -> real, zrIm: (seq<real>, nat) -> real)
    returns (re: seq<real>, im: seq<real>)
    requires n >= 2 && |src| == bigL * n
    ensures |re| == bigL * (n / 2 + 1) && |im| == |re|
    ensures forall c :: 0 <= c < |re| ==>
      re[c] == PackedRe(src, n, bigL, zrRe, zrIm, c) && im[c] == PackedIm(src, n, bigL, zrRe, zrIm, c)
  {
    var blocksize := n / 2 + 1;
    var reBuf := new real[bigL * blocksize](_ => 0.0);
    var imBuf := new real[bigL * blocksize](_ => 0.0);
    var i := 0;
    while i < bigL
      invariant 0 <= i <= bigL
      invariant i * blocksize <= bigL * blocksize
      invariant forall c :: 0 <= c < i * blocksize ==>
        reBuf[c] == PackedRe(src, n, bigL, zrRe, zrIm, c) && imBuf[c] == PackedIm(src, n, bigL, zrRe, zrIm, c)
      invariant forall c :: i * blocksize <= c < imBuf.Length ==> imBuf[c] == 0.0
    {
      RowFits(i, bigL, blocksize);
      PackRow(src, n, bigL, zrRe, zrIm, i, reBuf, imBuf);
      i := i + 1;
    }
    re, im := reBuf[..], imBuf[..];
  }

  /**
   * fft_zr_by_vDSP with the corrected layout, over the prepared source: the
   * real samples with the axis moved last, cut or zero-padded to N per row.
   * The result holds, for every row, the packed half-spectrum of that row
   * halved, and has the input shape with the axis resized to N/2 + 1.
   */
  method FftZrByVDSP(src: seq<real>, shape: seq<nat>, axis: nat, number: Option<nat>,
                     zrRe: (seq<real>, nat) -> real, zrIm: (seq<real>, nat) -> real)
    returns (res: ComplexArray)
    requires axis < |shape| && Requested(shape, axis, number) >= 2
    requires |src| == SourceRows(shape, axis) * ProcessNumberCorrected(Requested(shape, axis, number))
    ensures var p := FftPlanCorrected(shape, axis, Requested(shape, axis, number));
      && p.processNumber >= Requested(shape, axis, number) && p.processNumber % 2 == 0
      && res.packedShape == p.packedShape && res.shape == shape[axis := p.dstRow]
      && |res.re| == Size(p.packedShape) == p.loopnum * p.dstRow && |res.im| == |res.re|
      && forall c :: 0 <= c < |res.re| ==>
           && res.re[c] == PackedRe(src, p.processNumber, p.loopnum, zrRe, zrIm, c) / 2.0
           && res.im[c] == PackedIm(src, p.processNumber, p.loopnum, zrRe, zrIm, c) / 2.0
  {
    var number := Requested(shape, axis, number);
    var p := FftPlanCorrected(shape, axis, number);
    CorrectedPlanFits(shape, axis, number);
    ProcessNumberCorrectedSpec(number, 0);
    var n := p.processNumber;
    assert CeilLog2(number) >= 1 by {
      Pow2Strict(CeilLog2(number), 0);
    }
    Pow2Even(CeilLog2(number));
    var re, im := PackRows(src, n, p.loopnum, zrRe, zrIm);
    res := ComplexArray(Halve(re), Halve(im), p.packedShape, p.retShape);
  }
}
