/**
 * Contiguous row blocks of a flat buffer: the loops over consecutive runs
 * of `count` elements (sort, argsort, the stacked N x N matrices of the
 * LAPACK drivers) all overwrite one run per round. `RowsApplied` is the
 * buffer after k such rounds.
 */
module Blocks {
  import opened Shapes

  /** s with the w elements from lo overwritten by r (r is w long wherever the model uses it). */
  function Overwrite<T>(s: seq<T>, lo: nat, w: nat, r: seq<T>): (t: seq<T>)
    requires lo + w <= |s|
    ensures |t| == |s|
  {
    seq(|s|, i requires 0 <= i < |s| => if lo <= i < lo + w && i - lo < |r| then r[i - lo] else s[i])
  }

  /** A buffer that holds r at lo and agrees with s elsewhere is Overwrite(s, lo, |r|, r). */
  lemma OverwriteIs<T>(x: seq<T>, s: seq<T>, lo: nat, r: seq<T>)
    requires |x| == |s| && lo + |r| <= |s|
    requires forall i :: lo <= i < lo + |r| ==> x[i] == r[i - lo]
    requires forall i :: 0 <= i < |s| && !(lo <= i < lo + |r|) ==> x[i] == s[i]
    ensures x == Overwrite(s, lo, |r|, r)
  {
  }

  /** What Overwrite leaves in place: every slice before or after the run, and the run itself. */
  lemma OverwriteSlices<T>(s: seq<T>, lo: nat, w: nat, r: seq<T>, x: nat, y: nat)
    requires lo + w <= |s| && |r| == w && x <= y <= |s|
    ensures y <= lo || lo + w <= x ==> Overwrite(s, lo, w, r)[x..y] == s[x..y]
    ensures Overwrite(s, lo, w, r)[lo..lo + w] == r
  {
    var t := Overwrite(s, lo, w, r);
    SliceIs(t, lo, r);
    if y <= lo || lo + w <= x {
      SliceAgree(t, s, x, y);
    }
  }

  lemma SliceIs<T>(x: seq<T>, lo: nat, y: seq<T>)
    requires lo + |y| <= |x|
    requires forall i :: lo <= i < lo + |y| ==> x[i] == y[i - lo]
    ensures x[lo..lo + |y|] == y
  {
  }

  lemma SliceAgree<T>(x: seq<T>, y: seq<T>, lo: nat, hi: nat)
    requires lo <= hi <= |x| && hi <= |y|
    requires forall i :: lo <= i < hi ==> x[i] == y[i]
    ensures x[lo..hi] == y[lo..hi]
  {
  }

  /** Row k - 1 of a buffer of k * count elements ends at k * count. */
  lemma LastRowFits(k: nat, count: nat, len: nat)
    requires k > 0 && k * count <= len
    ensures (k - 1) * count + count == k * count
    ensures (k - 1) * count <= len
  {
  }

  lemma RowFits(b: nat, k: nat, count: nat)
    requires b < k
    ensures (b + 1) * count <= k * count
    ensures b * count + count == (b + 1) * count
  {
    MulMono(b + 1, k, count);
  }

  /**
   * The buffer after the first k rounds of a row loop: base with each of the
   * rows 0..k-1 (count elements each) overwritten by f of the matching row
   * of src.
   */
  function RowsApplied<T, U>(base: seq<U>, src: seq<T>, k: nat, count: nat, f: seq<T> -> seq<U>): (r: seq<U>)
    requires |base| == |src| && k * count <= |src|
    ensures |r| == |base|
    decreases k
  {
    if k == 0 then base
    else
      LastRowFits(k, count, |src|);
      var lo := (k - 1) * count;
      Overwrite(RowsApplied(base, src, k - 1, count, f), lo, count, f(src[lo..lo + count]))
  }

  /** One more round overwrites row k. */
  lemma RowsAppliedNext<T, U>(base: seq<U>, src: seq<T>, k: nat, count: nat, f: seq<T> -> seq<U>)
    requires |base| == |src| && k * count + count <= |src|
    ensures (k + 1) * count <= |src|
    ensures RowsApplied(base, src, k + 1, count, f)
         == Overwrite(RowsApplied(base, src, k, count, f), k * count, count, f(src[k * count..k * count + count]))
  {
    assert (k + 1) * count == k * count + count;
    assert (k + 1 - 1) * count == k * count;
  }

  /** One round of a row loop, stated over the buffers before and after it. */
  lemma RowsAppliedStep<T, U>(base: seq<U>, src: seq<T>, k: nat, lo: nat, count: nat, f: seq<T> -> seq<U>, prev: seq<U>, next: seq<U>)
    requires |base| == |src| && lo == k * count && lo + count <= |src|
    requires prev == RowsApplied(base, src, k, count, f)
    requires next == Overwrite(prev, lo, count, f(src[lo..lo + count]))
    ensures (k + 1) * count <= |src|
    ensures next == RowsApplied(base, src, k + 1, count, f)
  {
    RowsAppliedNext(base, src, k, count, f);
  }

  /**
   * One round of an in-place row loop: applying f to row k of the buffer
   * reached after k rounds applies it to the original row k, because that
   * row is still untouched.
   */
  lemma RowsAppliedInPlace<T>(orig: seq<T>, prev: seq<T>, next: seq<T>, k: nat, lo: nat, count: nat, f: seq<T> -> seq<T>)
    requires lo == k * count && lo + count <= |orig|
    requires prev == RowsApplied(orig, orig, k, count, f)
    requires next == Overwrite(prev, lo, count, f(prev[lo..lo + count]))
    ensures (k + 1) * count <= |orig|
    ensures next == RowsApplied(orig, orig, k + 1, count, f)
  {
    RowsAppliedTail(orig, orig, k, count, f);
    SliceAgree(prev, orig, k * count, k * count + count);
    RowsAppliedNext(orig, orig, k, count, f);
  }

  /** Everything from row k onwards is still base. */
  lemma {:induction false} RowsAppliedTail<T, U>(base: seq<U>, src: seq<T>, k: nat, count: nat, f: seq<T> -> seq<U>)
    requires |base| == |src| && k * count <= |src|
    ensures forall i :: k * count <= i < |src| ==> RowsApplied(base, src, k, count, f)[i] == base[i]
    decreases k
  {
    if k > 0 {
      LastRowFits(k, count, |src|);
      RowsAppliedTail(base, src, k - 1, count, f);
    }
  }

  /** Row b < k holds f of source row b, when f keeps the row's length. */
  lemma {:induction false} RowsAppliedBlock<T, U>(base: seq<U>, src: seq<T>, k: nat, count: nat,
                                                 f: seq<T> -> seq<U>, b: nat)
    requires |base| == |src| && k * count <= |src| && b < k
    ensures (b + 1) * count <= |src|
    ensures |f(Block(src, b, count))| == count ==>
      Block(RowsApplied(base, src, k, count, f), b, count) == f(Block(src, b, count))
    decreases k
  {
    LastRowFits(k, count, |src|);
    RowFits(b, k, count);
    if |f(Block(src, b, count))| == count {
      var lo := (k - 1) * count;
      var p := RowsApplied(base, src, k - 1, count, f);
      var row := f(src[lo..lo + count]);
      if b < k - 1 {
        RowFits(b, k - 1, count);
        RowsAppliedBlock(base, src, k - 1, count, f, b);
        OverwriteSlices(p, lo, count, f(Block(src, b, count)), b * count, (b + 1) * count);
        assert Overwrite(p, lo, count, row)[b * count..(b + 1) * count] == p[b * count..(b + 1) * count] by {
          var t := Overwrite(p, lo, count, row);
          forall i | b * count <= i < (b + 1) * count ensures t[i] == p[i] {
          }
          SliceAgree(t, p, b * count, (b + 1) * count);
        }
      } else {
        OverwriteSlices(p, lo, count, row, lo, lo);
      }
    }
  }

  /**
   * Flat cell c of an L x R grid sits in row c / R and column c % R, and a
   * run of `size` at either index fits a buffer of L (or R) such runs.
   */
  lemma CellFits(c: nat, bigL: nat, bigR: nat, size: nat)
    requires c < bigL * bigR
    ensures bigR > 0
    ensures c / bigR < bigL && c % bigR < bigR
    ensures (c / bigR + 1) * size <= bigL * size
    ensures (c % bigR + 1) * size <= bigR * size
  {
    MulLe(0, bigR, bigL);
    var i, j := c / bigR, c % bigR;
    assert c == i * bigR + j;
    MulLe(bigL, i, bigR);
    RowFits(i, bigL, size);
    RowFits(j, bigR, size);
  }

  /** Entry c of the row-major [n, k] transpose of a row-major [k, n] buffer. */
  lemma TransposedIndex(k: nat, n: nat, c: nat, len: nat)
    requires c < n * k && len == k * n
    ensures k > 0 && (c % k) * n + c / k < len
  {
    MulLe(0, k, n);
    var q, m := c / k, c % k;
    assert c == q * k + m;
    MulLe(n, q, k);
    MulLe(m, k - 1, n);
    assert (k - 1) * n + n == k * n;
  }

  /**
   * The row-major [n, k] buffer holding the transpose of a row-major [k, n]
   * buffer: row j of the result is column j of the original. It is also the
   * column-major layout of the original.
   */
  function Transposed<T>(r: seq<T>, k: nat, n: nat): (t: seq<T>)
    requires |r| == k * n
    ensures |t| == n * k
  {
    seq(n * k, c requires 0 <= c < n * k => (TransposedIndex(k, n, c, |r|); r[(c % k) * n + c / k]))
  }

  /** Cell (j, i) of the transpose is cell (i, j) of the original. */
  lemma TransposedCell<T>(r: seq<T>, k: nat, n: nat, i: nat, j: nat)
    requires |r| == k * n && i < k && j < n
    ensures j * k + i < n * k && i * n + j < |r|
    ensures Transposed(r, k, n)[j * k + i] == r[i * n + j]
  {
    RowFits(j, n, k);
    RowFits(i, k, n);
    DivModUnique(j, i, k);
  }
}
