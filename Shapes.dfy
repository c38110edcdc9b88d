/**
 * Shape arithmetic used by the kernels: element counts (shape2size),
 * row-major strides (shape2strides with .Row), row-major enumeration of
 * multi-indices (the order FlattenIndSequence visits them) and the
 * remove/insert-an-axis operations behind `remove(at:)` and expand_dims.
 */
module Shapes {

  /** Number of elements of an array of this shape. */
  function Size(shape: seq<nat>): nat
  {
    if shape == [] then 1 else shape[0] * Size(shape[1..])
  }

  /** Row-major strides: the stride of axis i is the product of the later dimensions. */
  function RowMajorStrides(shape: seq<nat>): (st: seq<nat>)
    ensures |st| == |shape|
  {
    if shape == [] then [] else [Size(shape[1..])] + RowMajorStrides(shape[1..])
  }

  function Dot(a: seq<int>, b: seq<int>): int
    requires |a| == |b|
  {
    if a == [] then 0 else a[0] * b[0] + Dot(a[1..], b[1..])
  }

  ghost predicate InBounds(idx: seq<nat>, shape: seq<nat>)
  {
    |idx| == |shape| && forall i :: 0 <= i < |idx| ==> idx[i] < shape[i]
  }

  /** The row-major multi-index of flat position d. */
  function Unravel(d: nat, shape: seq<nat>): (idx: seq<nat>)
    ensures |idx| == |shape|
    decreases |shape|
  {
    if shape == [] then []
    else
      var t := Size(shape[1..]);
      if t == 0 then [0] + Unravel(0, shape[1..])
      else [d / t] + Unravel(d % t, shape[1..])
  }

  function RemoveAt<T>(s: seq<T>, i: nat): (r: seq<T>)
    requires i < |s|
    ensures |r| == |s| - 1
  {
    s[..i] + s[i + 1..]
  }

  function InsertAt<T>(s: seq<T>, i: nat, x: T): (r: seq<T>)
    requires i <= |s|
    ensures |r| == |s| + 1
  {
    s[..i] + [x] + s[i..]
  }

  function Ones(n: nat): (r: seq<nat>)
    ensures |r| == n && Size(r) == 1
  {
    if n == 0 then [] else [1] + Ones(n - 1)
  }

  /** A contiguous block of width w: the b-th run s[b*w .. (b+1)*w]. */
  function Block<T>(s: seq<T>, b: nat, w: nat): (r: seq<T>)
    requires (b + 1) * w <= |s|
    ensures |r| == w
  {
    assert (b + 1) * w == b * w + w;
    s[b * w..(b + 1) * w]
  }

  lemma MulMono(a: nat, b: nat, c: nat)
    requires a <= b
    ensures a * c <= b * c
  {
  }

  lemma {:induction false} SizeAppend(p: seq<nat>, q: seq<nat>)
    ensures Size(p + q) == Size(p) * Size(q)
  {
    if p == [] {
      assert p + q == q;
    } else {
      assert (p + q)[1..] == p[1..] + q;
      SizeAppend(p[1..], q);
      assert Size(p + q) == p[0] * (Size(p[1..]) * Size(q));
    }
  }

  lemma SizeSnoc(s: seq<nat>, y: nat)
    ensures Size(s + [y]) == Size(s) * y
  {
    SizeAppend(s, [y]);
    assert Size([y]) == y * Size([]);
  }

  /** Removing axis a leaves a shape whose size times the removed extent is the whole size. */
  lemma SizeRemoveAt(shape: seq<nat>, a: nat)
    requires a < |shape|
    ensures Size(shape) == Size(RemoveAt(shape, a)) * shape[a]
    ensures Size(RemoveAt(shape, a)) == Size(shape[..a]) * Size(shape[a + 1..])
    ensures Size(shape[a..]) == shape[a] * Size(shape[a + 1..])
  {
    assert shape == shape[..a] + shape[a..];
    assert shape[a..][1..] == shape[a + 1..];
    SizeAppend(shape[..a], shape[a..]);
    SizeAppend(shape[..a], shape[a + 1..]);
    var p, q := Size(shape[..a]), Size(shape[a + 1..]);
    assert Size(shape[a..]) == shape[a] * q;
    MulRotate(p, shape[a], q);
  }

  /** A sequence of two or more is its prefix and its last two elements. */
  lemma SplitLastTwo<T>(r: seq<T>)
    requires |r| >= 2
    ensures r == r[..|r| - 2] + [r[|r| - 2]] + [r[|r| - 1]]
    ensures r[..|r| - 2] + r[|r| - 1..] == r[..|r| - 2] + [r[|r| - 1]]
  {
  }

  lemma MulAssoc(a: int, b: int, c: int)
    ensures (a * b) * c == a * (b * c)
  {
  }

  lemma MulLe(a: int, b: int, s: int)
    requires s >= 0
    ensures a <= b ==> a * s <= b * s
  {
    if a <= b {
      assert b * s == a * s + (b - a) * s;
    }
  }

  /** i * s + j with j < s divides back into quotient i and remainder j. */
  lemma DivModUnique(i: nat, j: nat, s: nat)
    requires j < s
    ensures (i * s + j) / s == i && (i * s + j) % s == j
  {
    var c := i * s + j;
    var q, m := c / s, c % s;
    assert c == q * s + m && 0 <= m < s;
    MulLe(i + 1, q, s);
    MulLe(q + 1, i, s);
  }

  lemma MulRotate(p: nat, x: nat, q: nat)
    ensures p * (x * q) == (p * q) * x
  {
  }

  lemma {:induction false} StrideAt(shape: seq<nat>, i: nat)
    requires i < |shape|
    ensures RowMajorStrides(shape)[i] == Size(shape[i + 1..])
    decreases i
  {
    if i > 0 {
      StrideAt(shape[1..], i - 1);
      assert shape[1..][i..] == shape[i + 1..];
    }
  }

  lemma {:induction false} UnravelInBounds(d: nat, shape: seq<nat>)
    requires d < Size(shape)
    ensures InBounds(Unravel(d, shape), shape)
    decreases |shape|
  {
    if shape != [] {
      var t := Size(shape[1..]);
      assert t > 0;
      assert d / t < shape[0] by {
        if d / t >= shape[0] {
          MulMono(shape[0], d / t, t);
        }
      }
      UnravelInBounds(d % t, shape[1..]);
    }
  }

  /** Unravel inverts the row-major offset Dot(idx, RowMajorStrides(shape)). */
  lemma {:induction false} RavelUnravel(d: nat, shape: seq<nat>)
    requires d < Size(shape)
    ensures Dot(Unravel(d, shape), RowMajorStrides(shape)) == d
    decreases |shape|
  {
    if shape != [] {
      var t := Size(shape[1..]);
      RavelUnravel(d % t, shape[1..]);
    }
  }

  /** Every in-bounds multi-index has a row-major offset inside the buffer. */
  lemma {:induction false} OffsetInBounds(idx: seq<nat>, shape: seq<nat>)
    requires InBounds(idx, shape)
    ensures 0 <= Dot(idx, RowMajorStrides(shape)) < Size(shape)
    decreases |shape|
  {
    if shape != [] {
      var t := Size(shape[1..]);
      assert InBounds(idx[1..], shape[1..]) by {
        forall i | 0 <= i < |idx[1..]| ensures idx[1..][i] < shape[1..][i] {
          assert idx[1..][i] == idx[i + 1];
        }
      }
      OffsetInBounds(idx[1..], shape[1..]);
      var rest := Dot(idx[1..], RowMajorStrides(shape)[1..]);
      assert Dot(idx, RowMajorStrides(shape)) == idx[0] * t + rest;
      MulMono(idx[0] + 1, shape[0], t);
    }
  }

  lemma {:induction false} DotInsert(u: seq<int>, v: seq<int>, a: nat, x: int, y: int)
    requires |u| == |v| && a <= |u|
    ensures Dot(InsertAt(u, a, x), InsertAt(v, a, y)) == Dot(u, v) + x * y
    decreases a
  {
    if a == 0 {
      assert InsertAt(u, 0, x)[1..] == u;
      assert InsertAt(v, 0, y)[1..] == v;
    } else {
      assert InsertAt(u, a, x)[1..] == InsertAt(u[1..], a - 1, x);
      assert InsertAt(v, a, y)[1..] == InsertAt(v[1..], a - 1, y);
      DotInsert(u[1..], v[1..], a - 1, x, y);
    }
  }

  lemma InsertRemoveAt<T>(s: seq<T>, a: nat)
    requires a < |s|
    ensures InsertAt(RemoveAt(s, a), a, s[a]) == s
  {
    assert InsertAt(RemoveAt(s, a), a, s[a]) == s[..a] + [s[a]] + s[a + 1..];
    assert s == s[..a] + [s[a]] + s[a + 1..];
  }

  lemma InsertInBounds(u: seq<nat>, shape: seq<nat>, a: nat, k: nat)
    requires a < |shape| && InBounds(u, RemoveAt(shape, a)) && k < shape[a]
    ensures InBounds(InsertAt(u, a, k), shape)
  {
    var w := InsertAt(u, a, k);
    forall i | 0 <= i < |w| ensures w[i] < shape[i] {
      if i < a {
        assert w[i] == u[i] && RemoveAt(shape, a)[i] == shape[i];
      } else if i > a {
        assert w[i] == u[i - 1] && RemoveAt(shape, a)[i - 1] == shape[i];
      }
    }
  }

  /**
   * The offset the stats loop reads: the flat index FlattenIndSequence yields
   * for the remaining multi-index u, plus k steps of the removed axis' stride,
   * is the row-major offset of u with k inserted at the reduced axis.
   */
  lemma LaneOffset(u: seq<nat>, shape: seq<nat>, a: nat, k: nat)
    requires a < |shape| && |u| == |shape| - 1
    ensures Dot(u, RemoveAt(RowMajorStrides(shape), a)) + k * RowMajorStrides(shape)[a]
         == Dot(InsertAt(u, a, k), RowMajorStrides(shape))
  {
    var st := RowMajorStrides(shape);
    DotInsert(u, RemoveAt(st, a), a, k, st[a]);
    InsertRemoveAt(st, a);
  }
}
