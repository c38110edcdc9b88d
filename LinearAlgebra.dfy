/**
 * The batched LAPACK glue of Matft.solve, Matft.inv and Matft.det: the
 * stacked N x N block driver, the determinant computed from the LU factors,
 * the determinant and inverse write-back with their result shapes, and the
 * argument preconditions, right-hand-side column count and result type of solve.
 * The LAPACK routines (getrf, getri, gesv) are function parameters.
 */
module LinearAlgebra {
  import opened MfCore
  import opened Shapes
  import opened Blocks

  /** The errors the LU and inverse helpers throw. */
  datatype LinAlgError = FactorizationError | SingularMatrix

  /** What getrf leaves behind: the n x n factors (U's diagonal at i + i*n) and the 1-based pivots. */
  datatype LuFactors = LuFactors(lu: seq<real>, ipiv: seq<int>)

  ghost predicate WellFormedLu(f: LuFactors, n: nat)
  {
    |f.lu| == n * n && |f.ipiv| == n
  }

  // ---------------------------------------------------------------------
  // _withNNStackedColumnMajorPtr
  // ---------------------------------------------------------------------

  /**
   * The offsets at which the stacked-matrix driver calls its body: one per
   * n x n block, advancing by n*n. A zero n divides by zero in the source.
   */
  method StackedOffsets(size: nat, n: nat) returns (offsets: seq<nat>)
    requires n > 0
    ensures |offsets| == size / (n * n)
    ensures forall k :: 0 <= k < |offsets| ==> offsets[k] == k * (n * n)
  {
    var matricesNum := size / (n * n);
    offsets := [];
    var offset := 0;
    var k := 0;
    while k < matricesNum
      invariant 0 <= k <= matricesNum
      invariant |offsets| == k && offset == k * (n * n)
      invariant forall j :: 0 <= j < k ==> offsets[j] == j * (n * n)
    {
      offsets := offsets + [offset];
      offset := offset + n * n;
      k := k + 1;
    }
  }

  /**
   * The driver's blocks lie inside the buffer, in order and without
   * overlap: block k ends where block k + 1 starts.
   */
  lemma StackedBlocksDisjoint(size: nat, n: nat, k: nat, k2: nat)
    requires n > 0 && k < k2 < size / (n * n)
    ensures k2 * (n * n) + n * n <= size
    ensures k * (n * n) + n * n <= k2 * (n * n)
  {
    var nn := n * n;
    assert (size / nn) * nn <= size;
    RowFits(k2, size / nn, nn);
    RowFits(k, k2, nn);
  }

  // ---------------------------------------------------------------------
  // The determinant of one block
  // ---------------------------------------------------------------------

  /** Entry i of U's diagonal in the column-major n x n factors. */
  function Diag(f: LuFactors, n: nat, i: nat): real
    requires WellFormedLu(f, n) && i < n
  {
    MulLe(i + 1, n, n);
    f.lu[i + i * n]
  }

  /** U's diagonal read off the factors, entry i at offset i + i*n. */
  function Diagonal(f: LuFactors, n: nat): (u: seq<real>)
    requires WellFormedLu(f, n)
    ensures |u| == n && forall i :: 0 <= i < n ==> u[i] == Diag(f, n, i)
  {
    seq(n, i requires 0 <= i < n => Diag(f, n, i))
  }

  /** Whether getrf swapped row i (its 1-based pivot is not i + 1). */
  predicate Swapped(piv: seq<int>, i: nat)
    requires i < |piv|
  {
    piv[i] != i + 1
  }

  /**
   * The first k factors of the determinant as written, over U's diagonal u
   * and the pivots: a diagonal term is negated when row i was NOT swapped.
   */
  function DetAsWritten(u: seq<real>, piv: seq<int>, k: nat): real
    requires k <= |u| && k <= |piv|
  {
    if k == 0 then 1.0
    else DetAsWritten(u, piv, k - 1) * (if Swapped(piv, k - 1) then u[k - 1] else -u[k - 1])
  }

  /** The first k factors of the standard determinant from LU: each row swap negates. */
  function DetStandard(u: seq<real>, piv: seq<int>, k: nat): real
    requires k <= |u| && k <= |piv|
  {
    if k == 0 then 1.0
    else DetStandard(u, piv, k - 1) * (if Swapped(piv, k - 1) then -u[k - 1] else u[k - 1])
  }

  /** The determinant of a block from its LU factors under the standard sign rule. */
  function Determinant(f: LuFactors, n: nat): real
    requires WellFormedLu(f, n)
  {
    DetStandard(Diagonal(f, n), f.ipiv, n)
  }

  function DiagProduct(u: seq<real>, k: nat): real
    requires k <= |u|
  {
    if k == 0 then 1.0 else DiagProduct(u, k - 1) * u[k - 1]
  }

  /** The number of rows among the first k that getrf swapped. */
  function Swaps(piv: seq<int>, k: nat): (m: nat)
    requires k <= |piv|
    ensures m <= k
  {
    if k == 0 then 0 else Swaps(piv, k - 1) + (if Swapped(piv, k - 1) then 1 else 0)
  }

  /** (-1)^m * x */
  function Signed(m: nat, x: real): real
  {
    if m % 2 == 0 then x else -x
  }

  /** The standard determinant is (-1)^(number of swaps) times the product of U's diagonal. */
  lemma {:induction false} DetStandardIsSignedProduct(u: seq<real>, piv: seq<int>, k: nat)
    requires k <= |u| && k <= |piv|
    ensures DetStandard(u, piv, k) == Signed(Swaps(piv, k), DiagProduct(u, k))
  {
    if k > 0 {
      DetStandardIsSignedProduct(u, piv, k - 1);
      SignedStep(DetStandard(u, piv, k - 1), Swaps(piv, k - 1), DiagProduct(u, k - 1), u[k - 1], Swapped(piv, k - 1));
    }
  }

  /** The number of rows among the first k that getrf did not swap. */
  function Kept(piv: seq<int>, k: nat): (m: nat)
    requires k <= |piv|
  {
    if k == 0 then 0 else Kept(piv, k - 1) + (if Swapped(piv, k - 1) then 0 else 1)
  }

  /** Every row is either swapped or kept. */
  lemma {:induction false} KeptPlusSwaps(piv: seq<int>, k: nat)
    requires k <= |piv|
    ensures Kept(piv, k) + Swaps(piv, k) == k
  {
    if k > 0 {
      KeptPlusSwaps(piv, k - 1);
    }
  }

  /** The as-written value is (-1)^(number of rows NOT swapped) times the product of U's diagonal. */
  lemma {:induction false} DetAsWrittenIsSignedProduct(u: seq<real>, piv: seq<int>, k: nat)
    requires k <= |u| && k <= |piv|
    ensures DetAsWritten(u, piv, k) == Signed(Kept(piv, k), DiagProduct(u, k))
  {
    if k > 0 {
      DetAsWrittenIsSignedProduct(u, piv, k - 1);
      SignedStep(DetAsWritten(u, piv, k - 1), Kept(piv, k - 1), DiagProduct(u, k - 1), u[k - 1], !Swapped(piv, k - 1));
    }
  }

  /**
   * One factor more: if x == (-1)^m * p, then x times d (negated when neg)
   * is (-1)^(m, plus one when neg) times p * d.
   */
  lemma SignedStep(x: real, m: nat, p: real, d: real, neg: bool)
    requires x == Signed(m, p)
    ensures x * (if neg then -d else d) == Signed(if neg then m + 1 else m, p * d)
  {
    SignedMul(m, p, d);
  }

  /** Multiplying a signed value by d or by -d. */
  lemma SignedMul(m: nat, p: real, d: real)
    ensures Signed(m, p) * d == Signed(m, p * d)
    ensures Signed(m, p) * -d == Signed(m + 1, p * d)
  {
    if m % 2 == 0 {
      assert (m + 1) % 2 == 1;
      assert p * -d == -(p * d);
    } else {
      assert (m + 1) % 2 == 0;
      assert -p * d == -(p * d);
      assert -p * -d == p * d;
    }
  }

  /**
   * The as-written determinant is (-1)^k times the standard one: equal to it
   * for an even number of rows and its negation for an odd number.
   */
  lemma DetAsWrittenVsStandard(u: seq<real>, piv: seq<int>, k: nat)
    requires k <= |u| && k <= |piv|
    ensures DetAsWritten(u, piv, k) == Signed(k, DetStandard(u, piv, k))
    ensures k % 2 == 0 ==> DetAsWritten(u, piv, k) == DetStandard(u, piv, k)
    ensures k % 2 == 1 ==> DetAsWritten(u, piv, k) == -DetStandard(u, piv, k)
  {
    DetStandardIsSignedProduct(u, piv, k);
    DetAsWrittenIsSignedProduct(u, piv, k);
    KeptPlusSwaps(piv, k);
    SignedCompose(k, Swaps(piv, k), Kept(piv, k), DiagProduct(u, k));
  }

  /**
   * Over one block's factors the loop as written is right for an even
   * number of rows and gives the negated determinant for an odd number.
   */
  lemma DetAsWrittenParity(f: LuFactors, n: nat)
    requires WellFormedLu(f, n)
    ensures DetAsWritten(Diagonal(f, n), f.ipiv, n) == Signed(n, Determinant(f, n))
    ensures n % 2 == 0 ==> DetAsWritten(Diagonal(f, n), f.ipiv, n) == Determinant(f, n)
    ensures n % 2 == 1 ==> DetAsWritten(Diagonal(f, n), f.ipiv, n) == -Determinant(f, n)
  {
    DetAsWrittenVsStandard(Diagonal(f, n), f.ipiv, n);
  }

  /** Two sign factors compose by parity: (-1)^a * (-1)^b * p == (-1)^c * p when a + b and c have the same parity. */
  lemma SignedCompose(a: nat, b: nat, c: nat, p: real)
    requires (a + b) % 2 == c % 2
    ensures Signed(a, Signed(b, p)) == Signed(c, p)
  {
  }

  /** Without any row swap the standard determinant is the product of U's diagonal. */
  lemma {:induction false} DetNoSwaps(u: seq<real>, piv: seq<int>, k: nat)
    requires k <= |u| && k <= |piv|
    requires forall i :: 0 <= i < k ==> piv[i] == i + 1
    ensures DetStandard(u, piv, k) == DiagProduct(u, k)
  {
    if k > 0 {
      DetNoSwaps(u, piv, k - 1);
    }
  }

  /** The LU factors of the 3 x 3 identity: U = I and pivots 1, 2, 3. */
  function Identity3Lu(): (f: LuFactors)
    ensures WellFormedLu(f, 3)
  {
    LuFactors([1.0, 0.0, 0.0, 0.0, 1.0, 0.0, 0.0, 0.0, 1.0], [1, 2, 3])
  }

  /** On the identity the loop as written yields -1 where the determinant is 1. */
  lemma DetIdentity3()
    ensures DetAsWritten(Diagonal(Identity3Lu(), 3), Identity3Lu().ipiv, 3) == -1.0
    ensures Determinant(Identity3Lu(), 3) == 1.0
  {
    var f := Identity3Lu();
    var u := Diagonal(f, 3);
    assert u[0] == 1.0 && u[1] == 1.0 && u[2] == 1.0;
    assert !Swapped(f.ipiv, 0) && !Swapped(f.ipiv, 1) && !Swapped(f.ipiv, 2);
  }

  /** The det loop of lines 220-223 as written, over one block's LU factors. */
  method BlockDetAsWritten(f: LuFactors, n: nat) returns (det: real)
    requires WellFormedLu(f, n)
    ensures det == DetAsWritten(Diagonal(f, n), f.ipiv, n)
    ensures det == Signed(n, Determinant(f, n))
  {
    ghost var u := Diagonal(f, n);
    det := 1.0;
    var i := 0;
    while i < n
      invariant 0 <= i <= n
      invariant det == DetAsWritten(u, f.ipiv, i)
    {
      var d := Diag(f, n, i);
      assert u[i] == d;
      det := det * (if f.ipiv[i] != i + 1 then d else -d);
      i := i + 1;
    }
    DetAsWrittenVsStandard(u, f.ipiv, n);
  }

  /** The det loop with the sign rule its comment describes: a swapped row negates. */
  method BlockDet(f: LuFactors, n: nat) returns (det: real)
    requires WellFormedLu(f, n)
    ensures det == Determinant(f, n)
    ensures det == Signed(Swaps(f.ipiv, n), DiagProduct(Diagonal(f, n), n))
  {
    ghost var u := Diagonal(f, n);
    det := 1.0;
    var i := 0;
    while i < n
      invariant 0 <= i <= n
      invariant det == DetStandard(u, f.ipiv, i)
    {
      var d := Diag(f, n, i);
      assert u[i] == d;
      det := det * (if f.ipiv[i] != i + 1 then -d else d);
      i := i + 1;
    }
    DetStandardIsSignedProduct(u, f.ipiv, n);
  }

  // ---------------------------------------------------------------------
  // det and inv over a stack of blocks
  // ---------------------------------------------------------------------

  /** The kernel contract: a successful factorisation of an n x n block has n x n factors and n pivots. */
  ghost predicate LuKernel(lu: seq<real> -> Result<LuFactors, LinAlgError>, n: nat)
  {
    forall b :: |b| == n * n && lu(b).Success? ==> WellFormedLu(lu(b).value, n)
  }

  /** A successful inversion of an n x n block has n x n entries. */
  ghost predicate InvKernel(inv: (seq<real>, LuFactors) -> Result<seq<real>, LinAlgError>, n: nat)
  {
    forall b, f :: |b| == n * n && inv(b, f).Success? ==> |inv(b, f).value| == n * n
  }

  /** The precondition shared by det and inv: rank above one with square trailing blocks. */
  ghost predicate SquareStack(shape: seq<nat>)
  {
    |shape| > 1 && shape[|shape| - 1] == shape[|shape| - 2]
  }

  /** The result shape of det: the leading ndim - 2 dimensions, or [1] for a single matrix. */
  function DetShape(shape: seq<nat>): (r: seq<nat>)
    requires |shape| > 1
    ensures |r| == (if |shape| - 2 != 0 then |shape| - 2 else 1)
  {
    if |shape| - 2 != 0 then shape[..|shape| - 2] else [1]
  }

  /**
   * det's result has one element per stacked matrix (size / (n*n) of them)
   * and row-major strides, which is [1] when the input is a single matrix.
   */
  lemma DetShapeSize(shape: seq<nat>)
    requires SquareStack(shape) && shape[|shape| - 1] > 0
    ensures var n := shape[|shape| - 1];
      Size(DetShape(shape)) == Size(shape) / (n * n) && Size(shape) == Size(DetShape(shape)) * (n * n)
    ensures |shape| == 2 ==> RowMajorStrides(DetShape(shape)) == [1]
  {
    var n := shape[|shape| - 1];
    var lead := shape[..|shape| - 2];
    SplitLastTwo(shape);
    SizeSnocSnoc(lead, n, n);
    assert Size(DetShape(shape)) == Size(lead) by {
      if |shape| == 2 {
        assert Size([1]) == 1 * Size([]);
      }
    }
    MulDivExact(Size(lead), n * n);
  }

  lemma SizeSnocSnoc(pre: seq<nat>, x: nat, y: nat)
    ensures Size(pre + [x] + [y]) == Size(pre) * (x * y)
  {
    SizeSnoc(pre + [x], y);
    SizeSnoc(pre, x);
    MulAssoc(Size(pre), x, y);
  }

  lemma MulDivExact(q: nat, d: nat)
    requires d > 0
    ensures (q * d) / d == q
  {
    DivModUnique(q, 0, d);
  }

  /**
   * The determinants of the first k blocks in order, or the error of the
   * first block whose factorisation fails.
   */
  ghost function DetResults(data: seq<real>, n: nat, k: nat, lu: seq<real> -> Result<LuFactors, LinAlgError>): (r: Result<seq<real>, LinAlgError>)
    requires LuKernel(lu, n) && k * (n * n) <= |data|
    ensures r.Success? ==> |r.value| == k
  {
    if k == 0 then Success([])
    else
      LastRowFits(k, n * n, |data|);
      match DetResults(data, n, k - 1, lu)
      case Failure(e) => Failure(e)
      case Success(ds) =>
        match lu(Block(data, k - 1, n * n))
        case Failure(e) => Failure(e)
        case Success(f) => Success(ds + [Determinant(f, n)])
  }

  /**
   * det succeeds exactly when every block factors; then it holds one value
   * per block, the determinant of that block's factors; otherwise some
   * block fails and its error is the one reported.
   */
  lemma {:induction false} DetResultsSpec(data: seq<real>, n: nat, k: nat, lu: seq<real> -> Result<LuFactors, LinAlgError>, b: nat)
    requires LuKernel(lu, n) && k * (n * n) <= |data| && b < k
    ensures (b + 1) * (n * n) <= |data|
    ensures DetResults(data, n, k, lu).Success? ==>
      && |DetResults(data, n, k, lu).value| == k
      && lu(Block(data, b, n * n)).Success?
      && DetResults(data, n, k, lu).value[b] == Determinant(lu(Block(data, b, n * n)).value, n)
    decreases k
  {
    RowFits(b, k, n * n);
    LastRowFits(k, n * n, |data|);
    if b < k - 1 {
      DetResultsSpec(data, n, k - 1, lu, b);
    }
  }

  /** The results the driver produces with the det loop as written: DetResults with DetAsWritten per block. */
  ghost function DetResultsAsWritten(data: seq<real>, n: nat, k: nat, lu: seq<real> -> Result<LuFactors, LinAlgError>): (r: Result<seq<real>, LinAlgError>)
    requires LuKernel(lu, n) && k * (n * n) <= |data|
    ensures r.Success? ==> |r.value| == k
  {
    if k == 0 then Success([])
    else
      LastRowFits(k, n * n, |data|);
      match DetResultsAsWritten(data, n, k - 1, lu)
      case Failure(e) => Failure(e)
      case Success(ds) =>
        match lu(Block(data, k - 1, n * n))
        case Failure(e) => Failure(e)
        case Success(f) => Success(ds + [DetAsWritten(Diagonal(f, n), f.ipiv, n)])
  }

  /**
   * The program as written fails exactly when the corrected one does, with
   * the same error; on success every value it returns is (-1)^n times the
   * determinant: all of them right for even n, all negated for odd n.
   */
  lemma {:induction false} DetResultsAsWrittenSigned(data: seq<real>, n: nat, k: nat, lu: seq<real> -> Result<LuFactors, LinAlgError>)
    requires LuKernel(lu, n) && k * (n * n) <= |data|
    ensures var w, s := DetResultsAsWritten(data, n, k, lu), DetResults(data, n, k, lu);
      && (s.Failure? ==> w == s)
      && (s.Success? ==> w.Success? && forall b :: 0 <= b < k ==> w.value[b] == Signed(n, s.value[b]))
    ensures n % 2 == 0 ==> DetResultsAsWritten(data, n, k, lu) == DetResults(data, n, k, lu)
    decreases k
  {
    var w, s := DetResultsAsWritten(data, n, k, lu), DetResults(data, n, k, lu);
    if k > 0 {
      LastRowFits(k, n * n, |data|);
      DetResultsAsWrittenSigned(data, n, k - 1, lu);
      var w1, s1 := DetResultsAsWritten(data, n, k - 1, lu), DetResults(data, n, k - 1, lu);
      var blk := Block(data, k - 1, n * n);
      if s1.Success? && lu(blk).Success? {
        var f := lu(blk).value;
        DetAsWrittenParity(f, n);
        assert w.value == w1.value + [DetAsWritten(Diagonal(f, n), f.ipiv, n)];
        assert s.value == s1.value + [Determinant(f, n)];
        forall b | 0 <= b < k ensures w.value[b] == Signed(n, s.value[b]) {
          if b < k - 1 {
            assert w.value[b] == w1.value[b] && s.value[b] == s1.value[b];
          }
        }
      }
    }
    if n % 2 == 0 && s.Success? {
      assert w.value == s.value;
    }
  }

  /** If every block factors, det succeeds. */
  lemma {:induction false} DetResultsSucceed(data: seq<real>, n: nat, k: nat, lu: seq<real> -> Result<LuFactors, LinAlgError>)
    requires LuKernel(lu, n) && k * (n * n) <= |data|
    requires forall b :: 0 <= b < k ==> (b + 1) * (n * n) <= |data| && lu(Block(data, b, n * n)).Success?
    ensures DetResults(data, n, k, lu).Success?
    decreases k
  {
    if k > 0 {
      LastRowFits(k, n * n, |data|);
      DetResultsSucceed(data, n, k - 1, lu);
    }
  }

  /**
   * Matft.det over the row-major buffer of a stack of n x n matrices: the
   * driver visits the blocks in order, factors each, and writes its
   * determinant to the next result slot; the first failing factorisation
   * aborts with its error.
   */
  method DetByLapack(m: MfArray, lu: seq<real> -> Result<LuFactors, LinAlgError>) returns (r: Result<MfArray, LinAlgError>)
    requires SquareStack(m.shape) && m.shape[|m.shape| - 1] > 0 && |m.data| == Size(m.shape)
    requires LuKernel(lu, m.shape[|m.shape| - 1])
    ensures var n := m.shape[|m.shape| - 1];
      && Size(DetShape(m.shape)) * (n * n) == |m.data|
      && var res := DetResults(m.data, n, Size(DetShape(m.shape)), lu);
      && (res.Failure? ==> r == Failure(res.error))
      && (res.Success? ==> r == Success(MfArray(res.value, DetShape(m.shape), RowMajorStrides(DetShape(m.shape)))))
  {
    var n := m.shape[|m.shape| - 1];
    DetShapeSize(m.shape);
    var retSize := |m.data| / (n * n);
    var offsets := StackedOffsets(|m.data|, n);
    var dst := new real[retSize];
    assert |offsets| == Size(DetShape(m.shape)) == retSize && |offsets| * (n * n) == |m.data|;
    var dstoffset := 0;
    while dstoffset < |offsets|
      invariant 0 <= dstoffset <= |offsets| && dstoffset * (n * n) <= |m.data|
      invariant DetResults(m.data, n, dstoffset, lu) == Success(dst[..dstoffset])
    {
      var err := DetBlock(m.data, n, dstoffset, |offsets|, offsets[dstoffset], lu, dst);
      if err.Some? {
        return Failure(err.value);
      }
      dstoffset := dstoffset + 1;
    }
    var shape := DetShape(m.shape);
    assert dstoffset == Size(shape) && dst[..] == dst[..dstoffset];
    r := Success(MfArray(dst[..], shape, RowMajorStrides(shape)));
  }

  /**
   * One pass of the det driver's body on block k: factor it, compute its
   * determinant and move it to result slot k; a failing factorisation's
   * error is the batch's.
   */
  method DetBlock(data: seq<real>, n: nat, k: nat, total: nat, off: nat, lu: seq<real> -> Result<LuFactors, LinAlgError>,
                  dst: array<real>) returns (err: Option<LinAlgError>)
    requires LuKernel(lu, n) && n > 0
    requires k < total && total * (n * n) == |data| && dst.Length == total && off == k * (n * n)
    requires DetResults(data, n, k, lu) == Success(dst[..k])
    modifies dst
    ensures (k + 1) * (n * n) <= |data|
    ensures err.Some? ==> DetResults(data, n, total, lu) == Failure(err.value)
    ensures err.None? ==> DetResults(data, n, k + 1, lu) == Success(dst[..k + 1])
  {
    RowFits(k, total, n * n);
    var block := data[off..off + n * n];
    assert block == Block(data, k, n * n);
    var factors := lu(block);
    DetResultsNext(data, n, k, lu);
    if factors.Failure? {
      DetFailurePersists(data, n, k + 1, total, lu);
      return Some(factors.error);
    }
    var det := BlockDet(factors.value, n);
    dst[k] := det;
    assert dst[..k + 1] == dst[..k] + [det];
    err := None;
  }

  /** One more block: its determinant is appended, or its factorisation error ends the batch. */
  lemma DetResultsNext(data: seq<real>, n: nat, k: nat, lu: seq<real> -> Result<LuFactors, LinAlgError>)
    requires LuKernel(lu, n) && (k + 1) * (n * n) <= |data|
    requires DetResults(data, n, k, lu).Success?
    ensures k * (n * n) <= |data|
    ensures lu(Block(data, k, n * n)).Failure? ==>
      DetResults(data, n, k + 1, lu) == Failure(lu(Block(data, k, n * n)).error)
    ensures lu(Block(data, k, n * n)).Success? ==>
      DetResults(data, n, k + 1, lu)
        == Success(DetResults(data, n, k, lu).value + [Determinant(lu(Block(data, k, n * n)).value, n)])
  {
    MulLe(k, k + 1, n * n);
  }

  /** Once a prefix of blocks fails, every longer prefix fails with the same error. */
  lemma {:induction false} DetFailurePersists(data: seq<real>, n: nat, k: nat, k2: nat, lu: seq<real> -> Result<LuFactors, LinAlgError>)
    requires LuKernel(lu, n) && k <= k2 && k2 * (n * n) <= |data|
    requires k * (n * n) <= |data|
    ensures DetResults(data, n, k, lu).Failure? ==> DetResults(data, n, k2, lu) == DetResults(data, n, k, lu)
    decreases k2 - k
  {
    if k < k2 {
      MulLe(k2 - 1, k2, n * n);
      LastRowFits(k2, n * n, |data|);
      DetFailurePersists(data, n, k, k2 - 1, lu);
    }
  }

  /**
   * The inverses of the first k blocks laid end to end, or the error of the
   * first block whose factorisation or inversion fails.
   */
  ghost function InvResults(data: seq<real>, n: nat, k: nat, lu: seq<real> -> Result<LuFactors, LinAlgError>,
                            inv: (seq<real>, LuFactors) -> Result<seq<real>, LinAlgError>): (r: Result<seq<real>, LinAlgError>)
    requires LuKernel(lu, n) && InvKernel(inv, n) && k * (n * n) <= |data|
    ensures r.Success? ==> |r.value| == k * (n * n)
  {
    if k == 0 then Success([])
    else
      LastRowFits(k, n * n, |data|);
      match InvResults(data, n, k - 1, lu, inv)
      case Failure(e) => Failure(e)
      case Success(out) =>
        var block := Block(data, k - 1, n * n);
        match lu(block)
        case Failure(e) => Failure(e)
        case Success(f) =>
          match inv(block, f)
          case Failure(e) => Failure(e)
          case Success(b) => Success(out + b)
  }

  /** One more block: its inverse is appended, or the first failing kernel's error ends the batch. */
  lemma InvResultsNext(data: seq<real>, n: nat, k: nat, lu: seq<real> -> Result<LuFactors, LinAlgError>,
                       inv: (seq<real>, LuFactors) -> Result<seq<real>, LinAlgError>)
    requires LuKernel(lu, n) && InvKernel(inv, n) && (k + 1) * (n * n) <= |data|
    requires InvResults(data, n, k, lu, inv).Success?
    ensures k * (n * n) <= |data|
    ensures var block := Block(data, k, n * n);
      && (lu(block).Failure? ==> InvResults(data, n, k + 1, lu, inv) == Failure(lu(block).error))
      && (lu(block).Success? && inv(block, lu(block).value).Failure? ==>
            InvResults(data, n, k + 1, lu, inv) == Failure(inv(block, lu(block).value).error))
      && (lu(block).Success? && inv(block, lu(block).value).Success? ==>
            InvResults(data, n, k + 1, lu, inv)
              == Success(InvResults(data, n, k, lu, inv).value + inv(block, lu(block).value).value))
  {
    MulLe(k, k + 1, n * n);
  }

  /** Once a prefix of blocks fails, every longer prefix fails with the same error. */
  lemma {:induction false} InvFailurePersists(data: seq<real>, n: nat, k: nat, k2: nat, lu: seq<real> -> Result<LuFactors, LinAlgError>,
                                              inv: (seq<real>, LuFactors) -> Result<seq<real>, LinAlgError>)
    requires LuKernel(lu, n) && InvKernel(inv, n) && k <= k2 && k2 * (n * n) <= |data|
    requires k * (n * n) <= |data|
    ensures InvResults(data, n, k, lu, inv).Failure? ==> InvResults(data, n, k2, lu, inv) == InvResults(data, n, k, lu, inv)
    decreases k2 - k
  {
    if k < k2 {
      MulLe(k2 - 1, k2, n * n);
      LastRowFits(k2, n * n, |data|);
      InvFailurePersists(data, n, k, k2 - 1, lu, inv);
    }
  }

  /**
   * inv succeeds only when every block factors and inverts; then block b of
   * the result is the inverse of block b of the input.
   */
  lemma {:induction false} InvResultsSpec(data: seq<real>, n: nat, k: nat, lu: seq<real> -> Result<LuFactors, LinAlgError>,
                                          inv: (seq<real>, LuFactors) -> Result<seq<real>, LinAlgError>, b: nat)
    requires LuKernel(lu, n) && InvKernel(inv, n) && k * (n * n) <= |data| && b < k
    ensures (b + 1) * (n * n) <= |data|
    ensures InvResults(data, n, k, lu, inv).Success? ==>
      && (b + 1) * (n * n) <= |InvResults(data, n, k, lu, inv).value|
      && var block := Block(data, b, n * n);
      && lu(block).Success?
      && inv(block, lu(block).value).Success?
      && Block(InvResults(data, n, k, lu, inv).value, b, n * n) == inv(block, lu(block).value).value
    decreases k
  {
    RowFits(b, k, n * n);
    LastRowFits(k, n * n, |data|);
    var r := InvResults(data, n, k, lu, inv);
    if r.Success? {
      var prev := InvResults(data, n, k - 1, lu, inv);
      var last := Block(data, k - 1, n * n);
      var x := inv(last, lu(last).value).value;
      assert r.value == prev.value + x;
      if b < k - 1 {
        InvResultsSpec(data, n, k - 1, lu, inv, b);
        RowFits(b, k - 1, n * n);
      }
      BlockOfAppend(prev.value, x, b, n * n);
    }
  }

  /** Blocks of a buffer extended by one more block: the earlier ones are kept, the new one is the extension. */
  lemma BlockOfAppend(a: seq<real>, x: seq<real>, b: nat, w: nat)
    requires |x| == w && (b + 1) * w <= |a| + w
    ensures (b + 1) * w <= |a + x|
    ensures (b + 1) * w <= |a| ==> Block(a + x, b, w) == Block(a, b, w)
    ensures b * w == |a| ==> Block(a + x, b, w) == x
  {
  }

  /** If every block factors and inverts, inv succeeds. */
  lemma {:induction false} InvResultsSucceed(data: seq<real>, n: nat, k: nat, lu: seq<real> -> Result<LuFactors, LinAlgError>,
                                             inv: (seq<real>, LuFactors) -> Result<seq<real>, LinAlgError>)
    requires LuKernel(lu, n) && InvKernel(inv, n) && k * (n * n) <= |data|
    requires forall b :: 0 <= b < k ==>
      (b + 1) * (n * n) <= |data| && lu(Block(data, b, n * n)).Success?
      && inv(Block(data, b, n * n), lu(Block(data, b, n * n)).value).Success?
    ensures InvResults(data, n, k, lu, inv).Success?
    decreases k
  {
    if k > 0 {
      LastRowFits(k, n * n, |data|);
      InvResultsSucceed(data, n, k - 1, lu, inv);
    }
  }

  /** moveAssign of a whole block: dst[off..off + |b|] becomes b, the rest is kept. */
  method MoveAssign(dst: array<real>, off: nat, b: seq<real>)
    requires off + |b| <= dst.Length
    modifies dst
    ensures dst[..] == Overwrite(old(dst[..]), off, |b|, b)
    ensures dst[..off + |b|] == old(dst[..off]) + b
  {
    ghost var before := dst[..];
    var i := 0;
    while i < |b|
      invariant 0 <= i <= |b|
      invariant forall c :: 0 <= c < dst.Length && !(off <= c < off + i) ==> dst[c] == before[c]
      invariant forall c :: off <= c < off + i ==> dst[c] == b[c - off]
    {
      dst[off + i] := b[i];
      i := i + 1;
    }
    OverwriteIs(dst[..], before, off, b);
    OverwritePrefix(dst[..], before, off, b);
  }

  /**
   * Matft.inv over the row-major buffer of a stack of n x n matrices: each
   * block is factored, inverted from its factors and moved to the same
   * offset of the result; the first failing kernel aborts with its error.
   * The result keeps the input's shape with row-major strides.
   */
  method InvByLapack(m: MfArray, lu: seq<real> -> Result<LuFactors, LinAlgError>,
                     inv: (seq<real>, LuFactors) -> Result<seq<real>, LinAlgError>) returns (r: Result<MfArray, LinAlgError>)
    requires SquareStack(m.shape) && m.shape[|m.shape| - 1] > 0 && |m.data| == Size(m.shape)
    requires LuKernel(lu, m.shape[|m.shape| - 1]) && InvKernel(inv, m.shape[|m.shape| - 1])
    ensures var n := m.shape[|m.shape| - 1];
      && Size(DetShape(m.shape)) * (n * n) == |m.data|
      && var res := InvResults(m.data, n, Size(DetShape(m.shape)), lu, inv);
      && (res.Failure? ==> r == Failure(res.error))
      && (res.Success? ==> r == Success(MfArray(res.value, m.shape, RowMajorStrides(m.shape))))
  {
    var n := m.shape[|m.shape| - 1];
    DetShapeSize(m.shape);
    var offsets := StackedOffsets(|m.data|, n);
    var dst := new real[|m.data|](_ => 0.0);
    assert |offsets| == Size(DetShape(m.shape)) && |offsets| * (n * n) == |m.data| == dst.Length;
    var k := 0;
    while k < |offsets|
      invariant 0 <= k <= |offsets| && k * (n * n) <= |m.data|
      invariant InvResults(m.data, n, k, lu, inv) == Success(dst[..k * (n * n)])
    {
      var err := InvBlock(m.data, n, k, |offsets|, offsets[k], lu, inv, dst);
      if err.Some? {
        return Failure(err.value);
      }
      k := k + 1;
    }
    assert dst[..] == dst[..k * (n * n)];
    r := Success(MfArray(dst[..], m.shape, RowMajorStrides(m.shape)));
  }

  /**
   * One pass of the inv driver's body on block k: factor, invert, move the
   * inverse to the block's offset; a failing kernel's error is the batch's.
   */
  method InvBlock(data: seq<real>, n: nat, k: nat, total: nat, off: nat, lu: seq<real> -> Result<LuFactors, LinAlgError>,
                  inv: (seq<real>, LuFactors) -> Result<seq<real>, LinAlgError>, dst: array<real>) returns (err: Option<LinAlgError>)
    requires LuKernel(lu, n) && InvKernel(inv, n) && n > 0
    requires k < total && total * (n * n) == |data| == dst.Length && off == k * (n * n)
    requires InvResults(data, n, k, lu, inv) == Success(dst[..k * (n * n)])
    modifies dst
    ensures (k + 1) * (n * n) <= |data|
    ensures err.Some? ==> InvResults(data, n, total, lu, inv) == Failure(err.value)
    ensures err.None? ==> InvResults(data, n, k + 1, lu, inv) == Success(dst[..(k + 1) * (n * n)])
  {
    RowFits(k, total, n * n);
    var block := data[off..off + n * n];
    assert block == Block(data, k, n * n);
    InvResultsNext(data, n, k, lu, inv);
    var factors := lu(block);
    if factors.Failure? {
      InvFailurePersists(data, n, k + 1, total, lu, inv);
      return Some(factors.error);
    }
    var inverse := inv(block, factors.value);
    if inverse.Failure? {
      InvFailurePersists(data, n, k + 1, total, lu, inv);
      return Some(inverse.error);
    }
    MoveAssign(dst, off, inverse.value);
    err := None;
  }

  /** Overwriting the run right after a prefix extends that prefix by the written run. */
  lemma OverwritePrefix(after: seq<real>, before: seq<real>, lo: nat, b: seq<real>)
    requires lo + |b| <= |before| && after == Overwrite(before, lo, |b|, b)
    ensures after[..lo + |b|] == before[..lo] + b
  {
    OverwriteSlices(before, lo, |b|, b, 0, lo);
    assert after[..lo + |b|] == after[0..lo] + after[lo..lo + |b|];
  }

  // ---------------------------------------------------------------------
  // solve: argument preconditions, right-hand-side count and result type
  // ---------------------------------------------------------------------

  /** Why solve stops before calling LAPACK: a failed precondition or an out-of-range shape read. */
  datatype SolveTrap = NonLinear | InvalidB | CannotSolve | IndexOutOfRange

  /**
   * What solve hands to the gesv kernel: the order n of the system, the
   * dstColNum count, the element type, whether b is passed in column-major
   * order, and the result's shape (that of b).
   */
  datatype SolveSetup = SolveSetup(n: nat, dstColNum: nat, returnedType: StoredType, rhsColumnMajor: bool, retShape: seq<nat>)

  /** StoredType.priority: Double wins over Float. */
  function Priority(a: StoredType, b: StoredType): (r: StoredType)
    ensures r == Double <==> a == Double || b == Double
  {
    if a == Double || b == Double then Double else Float
  }

  /**
   * The preconditions of solve in source order, then its choice of dstColNum, type
   * and right-hand-side layout. A 0-D b falls into the 2-D branch, whose
   * precondition tests squareness first and then reads bShape[0], which
   * does not exist.
   */
  function SolvePlan(coefShape: seq<nat>, bShape: seq<nat>, coefType: StoredType, bType: StoredType): (r: Result<SolveSetup, SolveTrap>)
    ensures r.Success? ==> |coefShape| == 2 && r.value.retShape == bShape && r.value.n == coefShape[0]
  {
    if |coefShape| != 2 then Failure(NonLinear)
    else if |bShape| > 2 then Failure(InvalidB)
    else if coefShape[0] != coefShape[1] then Failure(CannotSolve)
    else if |bShape| == 0 then Failure(IndexOutOfRange)
    else if bShape[0] != coefShape[0] then Failure(CannotSolve)
    else
      var t := Priority(coefType, bType);
      var cols := if |bShape| == 1 then coefShape[0] else if bShape[1] == 1 then bShape[0] else bShape[1];
      Success(SolveSetup(coefShape[0], cols, t, t == Float, bShape))
  }

  /** solve proceeds exactly for a square 2-D coefficient and a 1-D or 2-D b with as many rows. */
  lemma SolvePlanSucceeds(coefShape: seq<nat>, bShape: seq<nat>, coefType: StoredType, bType: StoredType)
    ensures SolvePlan(coefShape, bShape, coefType, bType).Success? <==>
      |coefShape| == 2 && 1 <= |bShape| <= 2 && coefShape[0] == coefShape[1] && bShape[0] == coefShape[0]
    ensures |coefShape| != 2 ==> SolvePlan(coefShape, bShape, coefType, bType) == Failure(NonLinear)
    ensures |coefShape| == 2 && |bShape| > 2 ==> SolvePlan(coefShape, bShape, coefType, bType) == Failure(InvalidB)
    ensures |coefShape| == 2 && |bShape| == 0 ==>
      SolvePlan(coefShape, bShape, coefType, bType)
        == (if coefShape[0] == coefShape[1] then Failure(IndexOutOfRange) else Failure(CannotSolve))
  {
  }

  /**
   * dstColNum is the row count for a 1-D b or a one-column b, otherwise b's
   * column count; in every case it is a dimension of b, and for a vector b
   * it is b's whole size.
   */
  lemma SolveColumnCount(coefShape: seq<nat>, bShape: seq<nat>, coefType: StoredType, bType: StoredType)
    requires SolvePlan(coefShape, bShape, coefType, bType).Success?
    ensures var c := SolvePlan(coefShape, bShape, coefType, bType).value.dstColNum;
      && c in bShape
      && (|bShape| == 1 || bShape[1] == 1 ==> c == Size(bShape))
      && (|bShape| == 2 && bShape[1] != 1 ==> c == bShape[1])
  {
    if |bShape| == 1 {
      assert Size(bShape) == bShape[0] * Size([]);
    } else {
      assert bShape == [bShape[0]] + [bShape[1]];
      SizeSnoc([bShape[0]], bShape[1]);
      assert Size([bShape[0]]) == bShape[0] * Size([]);
    }
  }

  /** The result is Double when either operand is Double, and the choice does not depend on the order. */
  lemma SolveResultType(coefShape: seq<nat>, bShape: seq<nat>, coefType: StoredType, bType: StoredType)
    requires SolvePlan(coefShape, bShape, coefType, bType).Success?
    ensures var p := SolvePlan(coefShape, bShape, coefType, bType).value;
      && (p.returnedType == Double <==> coefType == Double || bType == Double)
      && p.returnedType == Priority(bType, coefType)
      && (p.rhsColumnMajor <==> p.returnedType == Float)
  {
  }

  /**
   * The buffer passed to gesv for b (shape [rows, cols] read row-major): the
   * Float branch passes b in column-major order, the Double branch passes
   * b's row-major copy.
   */
  function RhsBuffer(b: seq<real>, rows: nat, cols: nat, columnMajor: bool): (r: seq<real>)
    requires |b| == rows * cols
    ensures |r| == |b|
    ensures !columnMajor ==> r == b
  {
    if columnMajor then Transposed(b, rows, cols) else b
  }

  /** In the column-major buffer, entry (i, j) of b sits at j * rows + i. */
  lemma ColumnMajorAt(b: seq<real>, rows: nat, cols: nat, i: nat, j: nat)
    requires |b| == rows * cols && i < rows && j < cols
    ensures j * rows + i < |RhsBuffer(b, rows, cols, true)| && i * cols + j < |b|
    ensures RhsBuffer(b, rows, cols, true)[j * rows + i] == b[i * cols + j]
  {
    var c := j * rows + i;
    ColumnMajorCell(rows, cols, i, j);
    TransposedAt(b, rows, cols, c);
  }

  lemma ColumnMajorCell(rows: nat, cols: nat, i: nat, j: nat)
    requires i < rows && j < cols
    ensures j * rows + i < cols * rows
    ensures (j * rows + i) / rows == j && (j * rows + i) % rows == i
  {
    MulLe(j + 1, cols, rows);
    DivModUnique(j, i, rows);
  }

  lemma TransposedAt(r: seq<real>, k: nat, n: nat, c: nat)
    requires |r| == k * n && c < n * k
    ensures (c % k) * n + c / k < |r|
    ensures Transposed(r, k, n)[c] == r[(c % k) * n + c / k]
  {
    TransposedIndex(k, n, c, |r|);
  }

  /** For a single column the two layouts agree, so the Double branch's use of b is harmless there. */
  lemma RhsLayoutsAgreeOnVectors(b: seq<real>, rows: nat)
    requires |b| == rows
    ensures RhsBuffer(b, rows, 1, true) == RhsBuffer(b, rows, 1, false)
  {
    var t := RhsBuffer(b, rows, 1, true);
    forall i | 0 <= i < rows ensures t[i] == b[i] {
      ColumnMajorAt(b, rows, 1, i, 0);
    }
  }

  /** For a 2 x 2 right-hand side the two branches hand gesv different buffers. */
  lemma RhsLayoutsDifferOnMatrices()
    ensures RhsBuffer([1.0, 2.0, 3.0, 4.0], 2, 2, true) == [1.0, 3.0, 2.0, 4.0]
    ensures RhsBuffer([1.0, 2.0, 3.0, 4.0], 2, 2, true) != RhsBuffer([1.0, 2.0, 3.0, 4.0], 2, 2, false)
  {
    var b := [1.0, 2.0, 3.0, 4.0];
    ColumnMajorAt(b, 2, 2, 0, 0);
    ColumnMajorAt(b, 2, 2, 1, 0);
    ColumnMajorAt(b, 2, 2, 0, 1);
    ColumnMajorAt(b, 2, 2, 1, 1);
    var t := RhsBuffer(b, 2, 2, true);
    assert t[1] == 3.0;
  }
}
