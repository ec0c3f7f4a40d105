/**
  Shape arithmetic shared by every buffer descriptor: the element count of a
  shape, its row-major strides, and the flat offset an index reaches through
  those strides. `Product` and `RowMajor` are the reference definitions of
  what the base class's `product` and `setStrides` compute; `ComputeSize` and
  `ComputeStrides` are loops computing the same values, proved against them.
 */
module Layout {

  /** Number of elements a shape describes: the product of its extents. */
  function Product(s: seq<nat>): (r: nat)
  {
    if |s| == 0 then 1 else s[0] * Product(s[1..])
  }

  /** Appending an axis multiplies the element count by its extent. */
  lemma {:induction false} ProductSnoc(s: seq<nat>, x: nat)
    ensures Product(s + [x]) == Product(s) * x
  {
    if |s| == 0 {
      assert s + [x] == [x];
      assert [x][1..] == [];
    } else {
      assert (s + [x])[1..] == s[1..] + [x];
      ProductSnoc(s[1..], x);
      calc {
        Product(s + [x]);
        s[0] * Product(s[1..] + [x]);
        s[0] * (Product(s[1..]) * x);
        (s[0] * Product(s[1..])) * x;
      }
    }
  }

  /**
    Row-major strides: the stride of axis i is the number of elements spanned
    by one step along it, i.e. the product of the extents after it. The
    contract is the recurrence `setStrides` uses: the innermost stride is 1
    and each stride is the next one times the next extent.
   */
  function RowMajor(s: seq<nat>): (r: seq<nat>)
    ensures |r| == |s|
    ensures |s| > 0 ==> r[|s| - 1] == 1
    ensures forall i :: 0 <= i < |s| - 1 ==> r[i] == r[i + 1] * s[i + 1]
  {
    var r := seq(|s|, i requires 0 <= i < |s| => Product(s[i + 1..]));
    SuffixProductsRecurrence(s, r);
    r
  }

  /** Suffix products obey the stride recurrence. */
  lemma SuffixProductsRecurrence(s: seq<nat>, r: seq<nat>)
    requires |r| == |s|
    requires forall i :: 0 <= i < |s| ==> r[i] == Product(s[i + 1..])
    ensures forall i :: 0 <= i < |s| - 1 ==> r[i] == r[i + 1] * s[i + 1]
  {
    forall i | 0 <= i < |s| - 1
      ensures r[i] == r[i + 1] * s[i + 1]
    {
      var t := s[i + 1..];
      assert t[0] == s[i + 1];
      assert t[1..] == s[i + 2..];
      assert Product(t) == t[0] * Product(t[1..]);
      assert r[i + 1] == Product(s[i + 2..]);
    }
  }

  /** The leading stride times the leading extent is the whole element count. */
  lemma SizeIsLeadingStrideTimesExtent(s: seq<nat>)
    requires |s| >= 1
    ensures Product(s) == RowMajor(s)[0] * s[0]
  {
    assert RowMajor(s)[0] == Product(s[1..]);
  }

  /** Dropping the leading axis drops the leading stride and keeps the rest. */
  lemma RowMajorTail(s: seq<nat>)
    requires |s| >= 1
    ensures RowMajor(s)[1..] == RowMajor(s[1..])
  {
    var a := RowMajor(s)[1..];
    var b := RowMajor(s[1..]);
    forall k | 0 <= k < |a|
      ensures a[k] == b[k]
    {
      assert s[k + 2..] == s[1..][k + 1..];
    }
  }

  /** The element count of a shape, computed as a running product over the axes in order. */
  method ComputeSize(sizes: seq<nat>) returns (size: nat)
    ensures size == Product(sizes)
  {
    size := 1;
    var i := 0;
    while i < |sizes|
      invariant 0 <= i <= |sizes|
      invariant size == Product(sizes[..i])
    {
      assert sizes[..i + 1] == sizes[..i] + [sizes[i]];
      ProductSnoc(sizes[..i], sizes[i]);
      size := size * sizes[i];
      i := i + 1;
    }
    assert sizes[..i] == sizes;
  }

  /**
    The row-major strides of a shape, computed from the innermost axis
    outwards: the innermost stride is 1, and each stride is the one after it
    times the extent after it.
   */
  method ComputeStrides(sizes: seq<nat>) returns (strides: seq<nat>)
    requires |sizes| >= 1
    ensures |strides| == |sizes|
    ensures forall i :: 0 <= i < |sizes| ==> strides[i] == Product(sizes[i + 1..])
  {
    var n := |sizes|;
    strides := [1];
    var i := n - 1;
    while i > 0
      invariant 0 <= i <= n - 1
      invariant strides == RowMajor(sizes)[i..]
    {
      strides := [strides[0] * sizes[i]] + strides;
      i := i - 1;
    }
  }

  /** Flat element offset of a multi-index under the given strides. */
  function Offset(idx: seq<nat>, strides: seq<nat>): (r: nat)
    requires |idx| == |strides|
  {
    if |idx| == 0 then 0 else idx[0] * strides[0] + Offset(idx[1..], strides[1..])
  }

  /** A multi-index lies inside the shape. */
  predicate InBounds(idx: seq<nat>, sizes: seq<nat>)
  {
    |idx| == |sizes| && forall k :: 0 <= k < |idx| ==> idx[k] < sizes[k]
  }

  /** Multiplying by the same factor keeps the order. */
  lemma {:induction false} MulMono(a: nat, b: nat, p: nat)
    requires a <= b
    ensures a * p <= b * p
    decreases b - a
  {
    if a < b {
      MulMono(a, b - 1, p);
      assert b * p == (b - 1) * p + p;
    }
  }

  /** Mixed-radix digits: a leading digit below `n` followed by a remainder below `p` stays below `n * p`. */
  lemma DigitBound(d: nat, n: nat, x: nat, p: nat)
    requires d < n && x < p
    ensures d * p + x < n * p
  {
    assert (d + 1) * p == d * p + p;
    MulMono(d + 1, n, p);
  }

  /** Mixed-radix digits: a smaller leading digit gives a smaller number, whatever the remainders below `p`. */
  lemma DigitOrder(d: nat, e: nat, x: nat, y: nat, p: nat)
    requires d < e && x < p && y < p
    ensures d * p + x < e * p + y
  {
    DigitBound(d, e, x, p);
  }

  /** The offset of a non-empty index splits into the leading digit times the leading stride plus the rest. */
  lemma OffsetSplit(idx: seq<nat>, sizes: seq<nat>)
    requires |idx| == |sizes| >= 1
    ensures Offset(idx, RowMajor(sizes)) == idx[0] * Product(sizes[1..]) + Offset(idx[1..], RowMajor(sizes[1..]))
  {
    RowMajorTail(sizes);
  }

  /** Under row-major strides every in-bounds index lands inside the buffer of `Product(sizes)` elements. */
  lemma {:induction false} OffsetWithinSize(idx: seq<nat>, sizes: seq<nat>)
    requires InBounds(idx, sizes)
    ensures Offset(idx, RowMajor(sizes)) < Product(sizes)
  {
    if |idx| > 0 {
      assert InBounds(idx[1..], sizes[1..]);
      OffsetWithinSize(idx[1..], sizes[1..]);
      OffsetSplit(idx, sizes);
      DigitBound(idx[0], sizes[0], Offset(idx[1..], RowMajor(sizes[1..])), Product(sizes[1..]));
    }
  }

  /** Under row-major strides distinct in-bounds indices reach distinct elements. */
  lemma {:induction false} OffsetInjective(idx: seq<nat>, jdx: seq<nat>, sizes: seq<nat>)
    requires InBounds(idx, sizes) && InBounds(jdx, sizes)
    requires idx != jdx
    ensures Offset(idx, RowMajor(sizes)) != Offset(jdx, RowMajor(sizes))
  {
    assert InBounds(idx[1..], sizes[1..]) && InBounds(jdx[1..], sizes[1..]);
    OffsetSplit(idx, sizes);
    OffsetSplit(jdx, sizes);
    var p := Product(sizes[1..]);
    var x := Offset(idx[1..], RowMajor(sizes[1..]));
    var y := Offset(jdx[1..], RowMajor(sizes[1..]));
    if idx[0] == jdx[0] {
      assert idx == [idx[0]] + idx[1..] && jdx == [jdx[0]] + jdx[1..];
      OffsetInjective(idx[1..], jdx[1..], sizes[1..]);
    } else {
      OffsetWithinSize(idx[1..], sizes[1..]);
      OffsetWithinSize(jdx[1..], sizes[1..]);
      if idx[0] < jdx[0] {
        DigitOrder(idx[0], jdx[0], x, y, p);
      } else {
        DigitOrder(jdx[0], idx[0], y, x, p);
      }
    }
  }

  /** For a rank-2 shape, row-major strides put element (i, j) at `i * cols + j`. */
  lemma Rank2Offset(i: nat, j: nat, rows: nat, cols: nat)
    ensures RowMajor([rows, cols]) == [cols, 1]
    ensures Offset([i, j], RowMajor([rows, cols])) == i * cols + j
  {
    assert [rows, cols][2..] == [];
    assert [rows, cols][1..] == [cols];
    assert [i, j][1..] == [j] && [cols, 1][1..] == [1];
    assert Offset([j], [1]) == j;
  }
}
