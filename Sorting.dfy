/**
 * sort_by_vDSP and argsort_by_vDSP. After the sorted axis has been moved
 * last and the array made row-contiguous, the buffer is cut into
 * storedSize / count consecutive rows of length count, and each row is
 * sorted in place (vDSP_vsort) or argsorted into a new buffer
 * (vDSP_vsorti). The kernels are modelled by insertion-sort functions whose
 * contracts say "sorted in the requested order, and a permutation".
 */
module Sorting {
  import opened MfCore
  import opened Shapes
  import opened Blocks

  /** x may precede y in the requested order. */
  predicate Before(o: SortOrder, x: real, y: real)
  {
    if o == Ascending then x <= y else x >= y
  }

  predicate Sorted(o: SortOrder, s: seq<real>)
  {
    forall i, j :: 0 <= i < j < |s| ==> Before(o, s[i], s[j])
  }

  /** Inserts x before the first element it may precede. */
  function Insert(o: SortOrder, x: real, t: seq<real>): (r: seq<real>)
    ensures |r| == |t| + 1
  {
    if t == [] then [x]
    else if Before(o, x, t[0]) then [x] + t
    else
      assert t == [t[0]] + t[1..];
      [t[0]] + Insert(o, x, t[1..])
  }

  /** Insertion adds exactly x to the row's elements. */
  lemma {:induction false} InsertPerm(o: SortOrder, x: real, t: seq<real>)
    ensures multiset(Insert(o, x, t)) == multiset(t) + multiset{x}
  {
    if t != [] && !Before(o, x, t[0]) {
      InsertPerm(o, x, t[1..]);
      assert t == [t[0]] + t[1..];
    }
  }

  /** Inserting into a sorted row keeps it sorted. */
  lemma {:induction false} InsertSorted(o: SortOrder, x: real, t: seq<real>)
    requires Sorted(o, t)
    ensures Sorted(o, Insert(o, x, t))
  {
    if t != [] && !Before(o, x, t[0]) {
      var rest := Insert(o, x, t[1..]);
      InsertSorted(o, x, t[1..]);
      InsertPerm(o, x, t[1..]);
      forall k | 0 <= k < |rest| ensures Before(o, t[0], rest[k]) {
        assert rest[k] in multiset(rest);
        if rest[k] != x {
          assert rest[k] in multiset(t[1..]);
          var j :| 0 <= j < |t[1..]| && t[1..][j] == rest[k];
          assert t[j + 1] == rest[k];
        }
      }
      ConsSorted(o, t[0], rest);
    }
  }

  /** A sorted row stays sorted behind a head that may precede all its elements. */
  lemma ConsSorted(o: SortOrder, h: real, rest: seq<real>)
    requires Sorted(o, rest)
    requires forall k :: 0 <= k < |rest| ==> Before(o, h, rest[k])
    ensures Sorted(o, [h] + rest)
  {
    var r := [h] + rest;
    forall i, j | 0 <= i < j < |r| ensures Before(o, r[i], r[j]) {
      if i == 0 {
        assert r[j] == rest[j - 1];
      } else {
        assert r[i] == rest[i - 1] && r[j] == rest[j - 1];
      }
    }
  }

  /** The vDSP_vsort kernel: insertion of the last element into the sorted rest. */
  function Sort(o: SortOrder, s: seq<real>): (r: seq<real>)
    ensures |r| == |s|
  {
    if s == [] then [] else Insert(o, s[|s| - 1], Sort(o, s[..|s| - 1]))
  }

  /** The sort kernel's promise: the row comes back in order o, as a permutation of itself. */
  lemma {:induction false} SortSpec(o: SortOrder, s: seq<real>)
    ensures Sorted(o, Sort(o, s))
    ensures multiset(Sort(o, s)) == multiset(s)
    decreases |s|
  {
    if s != [] {
      var init := s[..|s| - 1];
      assert s == init + [s[|s| - 1]];
      SortSpec(o, init);
      InsertSorted(o, s[|s| - 1], Sort(o, init));
      InsertPerm(o, s[|s| - 1], Sort(o, init));
    }
  }

  /** The indices 0, 1, ..., n-1 that vDSP_vsorti starts from. */
  function Range(n: nat): (r: seq<nat>)
    ensures |r| == n
    ensures forall k :: 0 <= k < n ==> r[k] == k
  {
    seq(n, k requires 0 <= k < n => k)
  }

  lemma RangeSnoc(n: nat)
    requires n > 0
    ensures multiset(Range(n)) == multiset(Range(n - 1)) + multiset{(n - 1) as nat}
  {
    var m: nat := n - 1;
    assert Range(n) == Range(m) + [m];
  }

  predicate IndicesBelow(r: seq<nat>, n: nat)
  {
    forall k :: 0 <= k < |r| ==> r[k] < n
  }

  /** The elements of s at the positions r, in that order. */
  function Gather(s: seq<real>, r: seq<nat>): (g: seq<real>)
    requires IndicesBelow(r, |s|)
    ensures |g| == |r|
    ensures forall k :: 0 <= k < |r| ==> g[k] == s[r[k]]
  {
    seq(|r|, k requires 0 <= k < |r| => s[r[k]])
  }

  /** Inserts index i into an index row ordered by the keys s, mirroring Insert. */
  function ArgInsert(o: SortOrder, s: seq<real>, i: nat, r: seq<nat>): (r': seq<nat>)
    requires i < |s| && IndicesBelow(r, |s|)
    ensures |r'| == |r| + 1
    ensures IndicesBelow(r', |s|)
  {
    if r == [] then [i]
    else if Before(o, s[i], s[r[0]]) then [i] + r
    else
      assert r == [r[0]] + r[1..];
      [r[0]] + ArgInsert(o, s, i, r[1..])
  }

  /** Index insertion adds exactly i to the index row. */
  lemma {:induction false} ArgInsertPerm(o: SortOrder, s: seq<real>, i: nat, r: seq<nat>)
    requires i < |s| && IndicesBelow(r, |s|)
    ensures multiset(ArgInsert(o, s, i, r)) == multiset(r) + multiset{i}
  {
    if r != [] && !Before(o, s[i], s[r[0]]) {
      ArgInsertPerm(o, s, i, r[1..]);
      assert r == [r[0]] + r[1..];
    }
  }

  /** Gathering after an index insertion is inserting the key. */
  lemma GatherCons(s: seq<real>, x: nat, r: seq<nat>)
    requires x < |s| && IndicesBelow(r, |s|)
    ensures IndicesBelow([x] + r, |s|)
    ensures Gather(s, [x] + r) == [s[x]] + Gather(s, r)
  {
    assert IndicesBelow([x] + r, |s|) by {
      forall k | 0 <= k < |[x] + r| ensures ([x] + r)[k] < |s| {
        if k > 0 {
          assert ([x] + r)[k] == r[k - 1];
        }
      }
    }
  }

  lemma {:induction false} GatherArgInsert(o: SortOrder, s: seq<real>, i: nat, r: seq<nat>)
    requires i < |s| && IndicesBelow(r, |s|)
    ensures Gather(s, ArgInsert(o, s, i, r)) == Insert(o, s[i], Gather(s, r))
  {
    if r == [] {
      assert Gather(s, [i]) == [s[i]];
    } else if Before(o, s[i], s[r[0]]) {
      GatherCons(s, i, r);
    } else {
      var tail := r[1..];
      assert IndicesBelow(tail, |s|);
      var rest := ArgInsert(o, s, i, tail);
      GatherArgInsert(o, s, i, tail);
      assert r == [r[0]] + tail;
      GatherCons(s, r[0], tail);
      GatherCons(s, r[0], rest);
    }
  }

  /**
   * The vDSP_vsorti kernel on the first n keys: a permutation of 0..n-1
   * whose gathered keys are the sorted prefix.
   */
  function ArgSortPrefix(o: SortOrder, s: seq<real>, n: nat): (r: seq<nat>)
    requires n <= |s|
    ensures |r| == n
    ensures IndicesBelow(r, |s|)
    decreases n
  {
    if n == 0 then [] else ArgInsert(o, s, n - 1, ArgSortPrefix(o, s, n - 1))
  }

  /** Adding the same element to equal multisets keeps them equal. */
  lemma AddSame(a: multiset<nat>, b: multiset<nat>, c: multiset<nat>, d: multiset<nat>, x: nat)
    requires a == b + multiset{x} && c == d + multiset{x} && b == d
    ensures a == c
  {
  }

  /** The first n argsorted indices are a permutation of 0..n-1. */
  lemma {:induction false} ArgSortPrefixPerm(o: SortOrder, s: seq<real>, n: nat)
    requires n <= |s|
    ensures multiset(ArgSortPrefix(o, s, n)) == multiset(Range(n))
    decreases n
  {
    if n > 0 {
      var prev := ArgSortPrefix(o, s, n - 1);
      ArgSortPrefixPerm(o, s, n - 1);
      ArgInsertPerm(o, s, n - 1, prev);
      RangeSnoc(n);
      AddSame(multiset(ArgSortPrefix(o, s, n)), multiset(prev), multiset(Range(n)), multiset(Range(n - 1)), n - 1);
    }
  }

  /** Gathering the first n keys by the argsorted indices gives the sorted prefix. */
  lemma {:induction false} ArgSortPrefixGather(o: SortOrder, s: seq<real>, n: nat)
    requires n <= |s|
    ensures Gather(s, ArgSortPrefix(o, s, n)) == Sort(o, s[..n])
    decreases n
  {
    if n > 0 {
      var prev := ArgSortPrefix(o, s, n - 1);
      var pre := s[..n];
      assert Sort(o, pre) == Insert(o, s[n - 1], Sort(o, s[..n - 1])) by {
        assert pre[..n - 1] == s[..n - 1] && pre[n - 1] == s[n - 1];
      }
      assert Gather(s, ArgSortPrefix(o, s, n)) == Insert(o, s[n - 1], Gather(s, prev)) by {
        GatherArgInsert(o, s, n - 1, prev);
      }
      ArgSortPrefixGather(o, s, n - 1);
    }
  }

  /** Every member of a permutation of 0..n-1 is below n. */
  lemma PermutationBelow(r: seq<nat>, n: nat)
    requires multiset(r) == multiset(Range(n))
    ensures IndicesBelow(r, n)
  {
    forall k | 0 <= k < |r| ensures r[k] < n {
      assert r[k] in multiset(Range(n));
    }
  }

  /** vDSP_vsorti on a whole row. */
  function ArgSort(o: SortOrder, s: seq<real>): (r: seq<nat>)
    ensures |r| == |s|
    ensures IndicesBelow(r, |s|)
  {
    ArgSortPrefix(o, s, |s|)
  }

  /**
   * The argsort kernel's promise: a permutation of 0..|s|-1 that gathers the
   * row into its sorted version, so the gathered keys are in order.
   */
  lemma ArgSortSpec(o: SortOrder, s: seq<real>)
    ensures multiset(ArgSort(o, s)) == multiset(Range(|s|))
    ensures IndicesBelow(ArgSort(o, s), |s|)
    ensures Gather(s, ArgSort(o, s)) == Sort(o, s)
    ensures Sorted(o, Gather(s, ArgSort(o, s)))
  {
    ArgSortPrefixPerm(o, s, |s|);
    ArgSortPrefixGather(o, s, |s|);
    assert s[..|s|] == s;
    SortSpec(o, s);
  }

  /** Two sorted rows with the same elements start with the same element. */
  lemma SortedHeads(o: SortOrder, p: seq<real>, q: seq<real>)
    requires Sorted(o, p) && Sorted(o, q) && multiset(p) == multiset(q) && p != []
    ensures q != [] && p[0] == q[0]
  {
    assert p[0] in multiset(q);
    var i :| 0 <= i < |q| && q[i] == p[0];
    assert q[0] in multiset(p);
    var j :| 0 <= j < |p| && p[j] == q[0];
    assert Before(o, q[0], p[0]) by {
      if i > 0 {
        assert Before(o, q[0], q[i]);
      }
    }
    assert Before(o, p[0], q[0]) by {
      if j > 0 {
        assert Before(o, p[0], p[j]);
      }
    }
  }

  /** Dropping the common head keeps the rows sorted with the same elements. */
  lemma SortedTails(o: SortOrder, p: seq<real>, q: seq<real>)
    requires Sorted(o, p) && Sorted(o, q) && multiset(p) == multiset(q)
    requires p != [] && q != [] && p[0] == q[0]
    ensures Sorted(o, p[1..]) && Sorted(o, q[1..]) && multiset(p[1..]) == multiset(q[1..])
  {
    assert p == [p[0]] + p[1..];
    assert q == [q[0]] + q[1..];
    assert multiset(p[1..]) == multiset(p) - multiset{p[0]};
    assert multiset(q[1..]) == multiset(q) - multiset{q[0]};
  }

  /** A sorted row is determined by its multiset of elements. */
  lemma {:induction false} SortedUnique(o: SortOrder, p: seq<real>, q: seq<real>)
    requires Sorted(o, p) && Sorted(o, q) && multiset(p) == multiset(q)
    ensures p == q
    decreases |p|
  {
    if p == [] {
      assert |q| == 0 by {
        assert |multiset(q)| == |multiset(p)|;
      }
    } else {
      SortedHeads(o, p, q);
      SortedTails(o, p, q);
      SortedUnique(o, p[1..], q[1..]);
      assert p == [p[0]] + p[1..];
      assert q == [q[0]] + q[1..];
    }
  }

  /** Any sorted permutation of a row is the row the sort kernel produces. */
  lemma SortIsTheSortedPermutation(o: SortOrder, s: seq<real>, t: seq<real>)
    requires Sorted(o, t) && multiset(t) == multiset(s)
    ensures t == Sort(o, s)
  {
    SortSpec(o, s);
    SortedUnique(o, t, Sort(o, s));
  }

  /** Sorting a sorted row changes nothing. */
  lemma SortIdempotent(o: SortOrder, s: seq<real>)
    ensures Sort(o, Sort(o, s)) == Sort(o, s)
  {
    SortSpec(o, s);
    SortSpec(o, Sort(o, s));
    SortedUnique(o, Sort(o, Sort(o, s)), Sort(o, s));
  }

  /** The sort kernel as a row function. */
  ghost function SortRow(o: SortOrder): seq<real> -> seq<real>
  {
    row => Sort(o, row)
  }

  /** The argsort kernel as a row function. */
  ghost function ArgSortRow(o: SortOrder): seq<real> -> seq<nat>
  {
    row => ArgSort(o, row)
  }

  /** wrap_vDSP_sort on the run a[lo .. lo+count]: sorted in place, nothing else touched. */
  method VSort(a: array<real>, lo: nat, count: nat, o: SortOrder)
    requires lo + count <= a.Length
    modifies a
    ensures a[..] == Overwrite(old(a[..]), lo, count, SortRow(o)(old(a[lo..lo + count])))
  {
    var sorted := Sort(o, a[lo..lo + count]);
    forall i | lo <= i < lo + count {
      a[i] := sorted[i - lo];
    }
    OverwriteIs(a[..], old(a[..]), lo, sorted);
  }

  /**
   * The sort_by_vDSP loop over a row-contiguous buffer whose sorted axis is
   * last: the storedSize / count rows are sorted one after the other, each
   * from what the row held before the loop. storedSize is the original
   * array's, the buffer is the contiguous copy; the requires says its rows fit.
   */
  method SortRows(a: array<real>, storedSize: nat, count: nat, o: SortOrder)
    requires count > 0
    requires storedSize / count * count <= a.Length
    modifies a
    ensures a[..] == RowsApplied(old(a[..]), old(a[..]), storedSize / count, count, SortRow(o))
  {
    var rows := storedSize / count;
    var offset := 0;
    var k := 0;
    while k < rows
      invariant 0 <= k <= rows
      invariant offset == k * count && offset <= a.Length
      invariant a[..] == RowsApplied(old(a[..]), old(a[..]), k, count, SortRow(o))
    {
      RowFits(k, rows, count);
      ghost var prev := a[..];
      VSort(a, offset, count, o);
      RowsAppliedInPlace(old(a[..]), prev, a[..], k, offset, count, SortRow(o));
      offset := offset + count;
      k := k + 1;
    }
  }

  /**
   * After SortRows each row b holds its original elements sorted in order o:
   * sorted, and a permutation of what the row held.
   */
  lemma SortRowsSpec(o: SortOrder, s: seq<real>, rows: nat, count: nat, b: nat)
    requires rows * count <= |s| && b < rows
    ensures (b + 1) * count <= |s|
    ensures Block(RowsApplied(s, s, rows, count, SortRow(o)), b, count) == Sort(o, Block(s, b, count))
    ensures Sorted(o, Block(RowsApplied(s, s, rows, count, SortRow(o)), b, count))
    ensures multiset(Block(RowsApplied(s, s, rows, count, SortRow(o)), b, count)) == multiset(Block(s, b, count))
  {
    RowsAppliedBlock(s, s, rows, count, SortRow(o), b);
    SortSpec(o, Block(s, b, count));
  }

  /** Elements after the last full row are left alone by SortRows. */
  lemma SortRowsTail(o: SortOrder, s: seq<real>, rows: nat, count: nat, t: seq<real>)
    requires rows * count <= |s|
    requires t == RowsApplied(s, s, rows, count, SortRow(o))
    ensures |t| == |s|
    ensures forall i :: rows * count <= i < |t| ==> t[i] == s[i]
  {
    RowsAppliedTail(s, s, rows, count, SortRow(o));
  }

  /** The zero-filled index buffer argsort_by_vDSP allocates. */
  function ZeroIndices(n: nat): (z: seq<nat>)
    ensures |z| == n && forall i :: 0 <= i < n ==> z[i] == 0
  {
    seq(n, _ => 0)
  }

  /** wrap_vDSP_argsort on the run src[lo .. lo+count]: its indices land in dst[lo .. lo+count], nothing else touched. */
  method VArgSort(dst: array<nat>, src: seq<real>, lo: nat, count: nat, o: SortOrder)
    requires lo + count <= dst.Length && lo + count <= |src|
    modifies dst
    ensures dst[..] == Overwrite(old(dst[..]), lo, count, ArgSortRow(o)(src[lo..lo + count]))
  {
    var idx := ArgSort(o, src[lo..lo + count]);
    forall i | lo <= i < lo + count {
      dst[i] := idx[i - lo];
    }
    OverwriteIs(dst[..], old(dst[..]), lo, idx);
  }

  /**
   * The argsort_by_vDSP loop: a new zero-filled index buffer of the source's
   * size in which row k receives vDSP_vsorti's indices for source row k.
   * As in SortRows, storedSize is the original array's and its rows must fit.
   */
  method ArgsortRows(src: seq<real>, storedSize: nat, count: nat, o: SortOrder)
    returns (dst: seq<nat>)
    requires count > 0
    requires storedSize / count * count <= |src|
    ensures dst == RowsApplied(ZeroIndices(|src|), src, storedSize / count, count, ArgSortRow(o))
  {
    var rows := storedSize / count;
    var out := new nat[|src|](i => 0);
    ghost var zeros := ZeroIndices(|src|);
    assert out[..] == zeros;
    var offset := 0;
    var k := 0;
    while k < rows
      invariant 0 <= k <= rows
      invariant offset == k * count && offset <= |src|
      invariant out[..] == RowsApplied(zeros, src, k, count, ArgSortRow(o))
    {
      RowFits(k, rows, count);
      ghost var prev := out[..];
      VArgSort(out, src, offset, count, o);
      RowsAppliedStep(zeros, src, k, offset, count, ArgSortRow(o), prev, out[..]);
      offset := offset + count;
      k := k + 1;
    }
    dst := out[..];
  }

  /**
   * After ArgsortRows each row b is a permutation of 0..count-1 that gathers
   * source row b into its sorted version, so the gathered keys are in order;
   * entries after the last full row stay zero.
   */
  lemma ArgsortRowsSpec(o: SortOrder, src: seq<real>, rows: nat, count: nat, b: nat)
    requires rows * count <= |src| && b < rows
    ensures (b + 1) * count <= |src|
    ensures var dst := RowsApplied(ZeroIndices(|src|), src, rows, count, ArgSortRow(o));
      && Block(dst, b, count) == ArgSort(o, Block(src, b, count))
      && multiset(Block(dst, b, count)) == multiset(Range(count))
      && IndicesBelow(Block(dst, b, count), count)
      && Gather(Block(src, b, count), Block(dst, b, count)) == Sort(o, Block(src, b, count))
      && Sorted(o, Gather(Block(src, b, count), Block(dst, b, count)))
  {
    var dst := RowsApplied(ZeroIndices(|src|), src, rows, count, ArgSortRow(o));
    RowsAppliedBlock(ZeroIndices(|src|), src, rows, count, ArgSortRow(o), b);
    ArgSortSpec(o, Block(src, b, count));
    PermutationBelow(Block(dst, b, count), count);
  }

  /** Entries after the last full row of the argsort buffer are zero. */
  lemma ArgsortRowsTail(o: SortOrder, src: seq<real>, rows: nat, count: nat, dst: seq<nat>)
    requires rows * count <= |src|
    requires dst == RowsApplied(ZeroIndices(|src|), src, rows, count, ArgSortRow(o))
    ensures forall i :: rows * count <= i < |dst| ==> dst[i] == 0
  {
    RowsAppliedTail(ZeroIndices(|src|), src, rows, count, ArgSortRow(o));
  }
}
