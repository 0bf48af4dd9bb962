/** Column-major (Fortran) element order, the layout `np.reshape(data, dim,
    order="F")` gives a flat run of values (yt_idefix/_io/dmp_io.py): the
    first axis varies fastest. */
module ColumnMajor {

  /** The number of elements of an array with these extents. */
  function Product(e: seq<int>): int {
    if |e| == 0 then 1 else e[0] * Product(e[1..])
  }

  lemma ProductNonNegative(e: seq<int>)
    requires forall k :: 0 <= k < |e| ==> e[k] >= 0
    ensures Product(e) >= 0
  {
    if |e| > 0 {
      ProductNonNegative(e[1..]);
    }
  }

  predicate InBounds(e: seq<int>, idx: seq<int>) {
    |idx| == |e| && forall k :: 0 <= k < |e| ==> 0 <= idx[k] < e[k]
  }

  /** Position in the flat run of the element at multi-index `idx`. */
  function LinearIndex(e: seq<int>, idx: seq<int>): int
    requires |idx| == |e|
  {
    if |e| == 0 then 0 else idx[0] + e[0] * LinearIndex(e[1..], idx[1..])
  }

  /** Every in-bounds multi-index lands inside the flat run. */
  lemma {:induction false} LinearIndexInRange(e: seq<int>, idx: seq<int>)
    requires InBounds(e, idx)
    ensures 0 <= LinearIndex(e, idx) < Product(e)
  {
    if |e| > 0 {
      assert InBounds(e[1..], idx[1..]);
      LinearIndexInRange(e[1..], idx[1..]);
      var rest := LinearIndex(e[1..], idx[1..]);
      assert rest + 1 <= Product(e[1..]);
      assert e[0] * (rest + 1) <= e[0] * Product(e[1..]);
    }
  }

  /** Distinct in-bounds multi-indices land on distinct positions, so the
      layout is a bijection onto `[0, Product(e))`. */
  lemma {:induction false} LinearIndexInjective(e: seq<int>, i: seq<int>, j: seq<int>)
    requires InBounds(e, i) && InBounds(e, j)
    requires LinearIndex(e, i) == LinearIndex(e, j)
    ensures i == j
  {
    if |e| > 0 {
      assert InBounds(e[1..], i[1..]) && InBounds(e[1..], j[1..]);
      var a := LinearIndex(e[1..], i[1..]);
      var b := LinearIndex(e[1..], j[1..]);
      LinearIndexInRange(e[1..], i[1..]);
      LinearIndexInRange(e[1..], j[1..]);
      DivModUnique(e[0], i[0], a, j[0], b);
      LinearIndexInjective(e[1..], i[1..], j[1..]);
      assert i == [i[0]] + i[1..];
      assert j == [j[0]] + j[1..];
    }
  }

  lemma DivModUnique(n: int, r1: int, q1: int, r2: int, q2: int)
    requires 0 <= r1 < n && 0 <= r2 < n
    requires r1 + n * q1 == r2 + n * q2
    ensures r1 == r2 && q1 == q2
  {
    var d := q1 - q2;
    assert n * d == r2 - r1 by {
      assert n * q1 - n * q2 == n * d;
    }
    if d >= 1 {
      MulAtLeast(n, d);
    } else if d <= -1 {
      MulAtLeast(n, -d);
    }
  }

  lemma MulAtLeast(n: int, d: int)
    requires n > 0 && d >= 1
    ensures n * d >= n
  {
    assert n * d == n + n * (d - 1);
    assert n * (d - 1) >= 0;
  }

  /** Stepping axis `k` by one moves `Product(e[..k])` places in the flat run:
      the first axis has stride 1, each later axis the product of the extents
      before it. */
  lemma {:induction false} Stride(e: seq<int>, idx: seq<int>, k: nat)
    requires |idx| == |e| && k < |e|
    ensures LinearIndex(e, idx[k := idx[k] + 1]) == LinearIndex(e, idx) + Product(e[..k])
  {
    var idx' := idx[k := idx[k] + 1];
    if k == 0 {
      assert idx'[1..] == idx[1..];
    } else {
      assert idx'[1..] == idx[1..][k - 1 := idx[k] + 1];
      Stride(e[1..], idx[1..], k - 1);
      assert e[..k] == [e[0]] + e[1..][..k - 1];
    }
  }
}
