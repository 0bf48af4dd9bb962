/** What a dataset derives from its grid (yt_idefix/data_structures.py):
    the dimensionality of a domain, its left and right edges, and, for the
    VTK reader, the per-axis cell widths and cell centres computed from the
    cell edges. Coordinates are `real`s: the derivations only subtract,
    halve and compare, and floating-point rounding is not modelled. */
module Domain {
  import opened Results

  datatype DomainError =
    | EmptyCoordinates(axis: nat)  // `min()`/`max()` or `edges[0]` of an empty array
    | BroadcastMismatch(axis: nat, given: nat, expected: nat)  // `arr[:] = values` of another length

  // ---------------------------------------------------------------------
  // Dimensionality

  /** `np.count_nonzero(dims - 1)`: the number of axes whose extent is not 1. */
  function Dimensionality(dims: seq<int>): (n: nat)
    ensures n <= |dims|
  {
    if |dims| == 0 then 0
    else Dimensionality(dims[..|dims| - 1]) + (if dims[|dims| - 1] != 1 then 1 else 0)
  }

  /** The positions of the axes whose extent is not 1, in increasing order. */
  function NonUnitAxes(dims: seq<int>): (axes: seq<nat>)
    ensures forall k :: 0 <= k < |axes| ==> axes[k] < |dims| && dims[axes[k]] != 1
    ensures forall i :: 0 <= i < |dims| && dims[i] != 1 ==> i in axes
    ensures forall k, l :: 0 <= k < l < |axes| ==> axes[k] < axes[l]
  {
    if |dims| == 0 then []
    else
      var front := NonUnitAxes(dims[..|dims| - 1]);
      if dims[|dims| - 1] != 1 then front + [|dims| - 1] else front
  }

  /** The dimensionality counts exactly the axes with a non-unit extent. */
  lemma {:induction false} DimensionalityCountsAxes(dims: seq<int>)
    ensures Dimensionality(dims) == |NonUnitAxes(dims)|
  {
    if |dims| > 0 {
      DimensionalityCountsAxes(dims[..|dims| - 1]);
    }
  }

  /** A domain is 0-dimensional exactly when every extent is 1, and full-
      dimensional exactly when none is. */
  lemma {:induction false} DimensionalityExtremes(dims: seq<int>)
    ensures Dimensionality(dims) == 0 <==> forall i :: 0 <= i < |dims| ==> dims[i] == 1
    ensures Dimensionality(dims) == |dims| <==> forall i :: 0 <= i < |dims| ==> dims[i] != 1
  {
    if |dims| > 0 {
      var front := dims[..|dims| - 1];
      DimensionalityExtremes(front);
      assert forall i :: 0 <= i < |front| ==> front[i] == dims[i];
    }
  }

  // ---------------------------------------------------------------------
  // Widths and centres from edges

  /** `np.ediff1d(edges)`: consecutive differences. */
  function Diffs(e: seq<real>): (d: seq<real>)
    ensures |d| == if |e| == 0 then 0 else |e| - 1
    ensures forall k :: 0 <= k < |d| ==> d[k] + e[k] == e[k + 1]
  {
    if |e| <= 1 then [] else seq(|e| - 1, k requires 0 <= k < |e| - 1 => e[k + 1] - e[k])
  }

  /** `0.5 * (edges[1:] + edges[:-1])`: consecutive midpoints. */
  function Midpoints(e: seq<real>): (m: seq<real>)
    ensures |m| == if |e| == 0 then 0 else |e| - 1
    ensures forall k :: 0 <= k < |m| ==> m[k] - e[k] == e[k + 1] - m[k]
  {
    if |e| <= 1 then [] else seq(|e| - 1, k requires 0 <= k < |e| - 1 => 0.5 * (e[k + 1] + e[k]))
  }

  function Sum(xs: seq<real>): real {
    if |xs| == 0 then 0.0 else Sum(xs[..|xs| - 1]) + xs[|xs| - 1]
  }

  /** The widths of consecutive cells add up to the distance from the first
      edge to the last. */
  lemma {:induction false} DiffsTelescope(e: seq<real>)
    requires |e| > 0
    ensures Sum(Diffs(e)) == e[|e| - 1] - e[0]
  {
    if |e| > 1 {
      var front := e[..|e| - 1];
      var d := Diffs(e);
      DiffsTelescope(front);
      assert d[..|d| - 1] == Diffs(front) by {
        DiffsPrefix(e);
      }
      assert Sum(d) == Sum(Diffs(front)) + d[|d| - 1];
    }
  }

  /** Dropping the last edge drops the last width. */
  lemma DiffsPrefix(e: seq<real>)
    requires |e| > 1
    ensures Diffs(e)[..|e| - 2] == Diffs(e[..|e| - 1])
  {
    var front := e[..|e| - 1];
    forall k | 0 <= k < |e| - 2 ensures Diffs(e)[k] == Diffs(front)[k] {
      assert front[k] == e[k] && front[k + 1] == e[k + 1];
    }
  }

  /** Each midpoint is its left edge plus half the cell's width. */
  lemma MidpointIsHalfWidth(e: seq<real>, k: nat)
    requires k + 1 < |e|
    ensures Midpoints(e)[k] == e[k] + Diffs(e)[k] / 2.0
  {
  }

  function Max(a: int, b: int): int {
    if a >= b then a else b
  }

  /** `arr[:] = values` for an array of length `n`: the values when they
      have that length, one value repeated when there is exactly one
      (numpy broadcasting), an error otherwise. */
  function Fill(axis: nat, values: seq<real>, n: nat): (r: Result<seq<real>, DomainError>)
    ensures r.Ok? <==> |values| == n || |values| == 1
    ensures r.Ok? ==> |r.value| == n
    ensures r.Ok? && |values| == n ==> r.value == values
    ensures r.Ok? ==> forall k :: 0 <= k < n ==> r.value[k] in values
  {
    if |values| == n then Ok(values)
    else if |values| == 1 then Ok(seq(n, _ => values[0]))
    else Err(BroadcastMismatch(axis, |values|, n))
  }

  /** Cell widths along one axis of extent `dim`: an array of length
      `max(dim, 2)` holding the edge differences when `dim > 1`, otherwise
      the domain's width along that axis. */
  function AxisWidths(axis: nat, dim: int, edges: seq<real>, width: real): Result<seq<real>, DomainError> {
    var n := Max(dim, 2);
    if dim > 1 then Fill(axis, Diffs(edges), n) else Ok(seq(n, _ => width))
  }

  /** Cell centres along one axis: the edge midpoints when `dim > 1`,
      otherwise the first edge. */
  function AxisCenters(axis: nat, dim: int, edges: seq<real>): Result<seq<real>, DomainError> {
    var n := Max(dim, 2);
    if dim > 1 then Fill(axis, Midpoints(edges), n)
    else if |edges| == 0 then Err(EmptyCoordinates(axis))
    else Ok(seq(n, _ => edges[0]))
  }

  /** `IdefixVtkHierarchy._cell_widths`: one array per axis. */
  function CellWidths(dims: seq<int>, edges: seq<seq<real>>, width: seq<real>): Result<seq<seq<real>>, DomainError>
    requires |dims| == 3 && |edges| == 3 && |width| == 3
  {
    var x :- AxisWidths(0, dims[0], edges[0], width[0]);
    var y :- AxisWidths(1, dims[1], edges[1], width[1]);
    var z :- AxisWidths(2, dims[2], edges[2], width[2]);
    Ok([x, y, z])
  }

  /** `IdefixVtkHierarchy._cell_centers`: one array per axis. */
  function CellCenters(dims: seq<int>, edges: seq<seq<real>>): Result<seq<seq<real>>, DomainError>
    requires |dims| == 3 && |edges| == 3
  {
    var x :- AxisCenters(0, dims[0], edges[0]);
    var y :- AxisCenters(1, dims[1], edges[1]);
    var z :- AxisCenters(2, dims[2], edges[2]);
    Ok([x, y, z])
  }

  /** An axis whose edges match its extent (`dim + 1` edges). */
  predicate EdgesFit(dim: int, edges: seq<real>) {
    dim > 1 && |edges| == dim + 1
  }

  /** The widths along one axis: `max(dim, 2)` entries; where the edges fit
      the extent, each entry is the distance between consecutive edges and
      they add up to the axis's extent; two edges give one width, which
      numpy repeats over every entry; along a flat axis, every entry is
      the domain width. They fail only where an axis with `dim > 1` has a
      number of edges numpy cannot broadcast. */
  lemma AxisWidthsSpec(axis: nat, dim: int, edges: seq<real>, width: real)
    ensures var r := AxisWidths(axis, dim, edges, width);
      && (r.Ok? <==> dim <= 1 || |Diffs(edges)| == Max(dim, 2) || |Diffs(edges)| == 1)
      && (r.Ok? ==> |r.value| == Max(dim, 2))
      && (r.Ok? && dim <= 1 ==> forall k :: 0 <= k < |r.value| ==> r.value[k] == width)
      && (EdgesFit(dim, edges) ==>
            && r.Ok?
            && (forall k :: 0 <= k < dim ==> edges[k] + r.value[k] == edges[k + 1])
            && Sum(r.value) == edges[dim] - edges[0])
      && (dim > 1 && |edges| == 2 ==>
            r.Ok? && forall k :: 0 <= k < |r.value| ==> r.value[k] == edges[1] - edges[0])
  {
    if EdgesFit(dim, edges) {
      DiffsTelescope(edges);
    }
  }

  /** The centres along one axis: `max(dim, 2)` entries, the midpoints of
      consecutive edges where the edges fit, the one midpoint repeated when
      there are two edges, the first edge along a flat axis; a flat axis without edges is an error. */
  lemma AxisCentersSpec(axis: nat, dim: int, edges: seq<real>)
    ensures var r := AxisCenters(axis, dim, edges);
      && (r.Ok? <==> if dim > 1 then |Midpoints(edges)| in {Max(dim, 2), 1} else |edges| > 0)
      && (r.Ok? ==> |r.value| == Max(dim, 2))
      && (r.Ok? && dim <= 1 ==> forall k :: 0 <= k < |r.value| ==> r.value[k] == edges[0])
      && (EdgesFit(dim, edges) ==>
            && r.Ok?
            && (forall k :: 0 <= k < dim ==> r.value[k] == (edges[k] + edges[k + 1]) / 2.0)
            && forall k :: 0 <= k < dim ==>
                 edges[k] <= r.value[k] <= edges[k + 1] || edges[k + 1] <= r.value[k] <= edges[k])
      && (dim > 1 && |edges| == 2 ==>
            r.Ok? && forall k :: 0 <= k < |r.value| ==> r.value[k] == (edges[0] + edges[1]) / 2.0)
  {
  }

  /** Where the edges fit, each cell centre lies half a width past its left
      edge: centres and widths describe the same cells. */
  lemma CentersMatchWidths(axis: nat, dim: int, edges: seq<real>, width: real, k: nat)
    requires EdgesFit(dim, edges) && k < dim
    ensures AxisWidths(axis, dim, edges, width).Ok? && AxisCenters(axis, dim, edges).Ok?
    ensures k < |AxisWidths(axis, dim, edges, width).value| && k < |AxisCenters(axis, dim, edges).value|
    ensures AxisCenters(axis, dim, edges).value[k]
         == edges[k] + AxisWidths(axis, dim, edges, width).value[k] / 2.0
  {
    MidpointIsHalfWidth(edges, k);
  }

  /** The three-axis arrays are the per-axis ones, and fail where an axis
      fails. */
  lemma CellWidthsAxes(dims: seq<int>, edges: seq<seq<real>>, width: seq<real>)
    requires |dims| == 3 && |edges| == 3 && |width| == 3
    ensures var r := CellWidths(dims, edges, width);
      && (r.Ok? <==> forall a :: 0 <= a < 3 ==> AxisWidths(a, dims[a], edges[a], width[a]).Ok?)
      && (r.Ok? ==> |r.value| == 3 && forall a :: 0 <= a < 3 ==>
            r.value[a] == AxisWidths(a, dims[a], edges[a], width[a]).value)
  {
  }

  lemma CellCentersAxes(dims: seq<int>, edges: seq<seq<real>>)
    requires |dims| == 3 && |edges| == 3
    ensures var r := CellCenters(dims, edges);
      && (r.Ok? <==> forall a :: 0 <= a < 3 ==> AxisCenters(a, dims[a], edges[a]).Ok?)
      && (r.Ok? ==> |r.value| == 3 && forall a :: 0 <= a < 3 ==>
            r.value[a] == AxisCenters(a, dims[a], edges[a]).value)
  {
  }

  // ---------------------------------------------------------------------
  // Domain edges

  /** `arr.min()` */
  function Min(xs: seq<real>): (m: real)
    requires |xs| > 0
    ensures m in xs
    ensures forall k :: 0 <= k < |xs| ==> m <= xs[k]
  {
    if |xs| == 1 then xs[0]
    else
      var m := Min(xs[..|xs| - 1]);
      assert forall k :: 0 <= k < |xs| - 1 ==> xs[..|xs| - 1][k] == xs[k];
      if xs[|xs| - 1] < m then xs[|xs| - 1] else m
  }

  /** `arr.max()` */
  function MaxOf(xs: seq<real>): (m: real)
    requires |xs| > 0
    ensures m in xs
    ensures forall k :: 0 <= k < |xs| ==> xs[k] <= m
  {
    if |xs| == 1 then xs[0]
    else
      var m := MaxOf(xs[..|xs| - 1]);
      assert forall k :: 0 <= k < |xs| - 1 ==> xs[..|xs| - 1][k] == xs[k];
      if xs[|xs| - 1] > m then xs[|xs| - 1] else m
  }

  /** `arr.min()` and `arr.max()` of one axis, the right edge widened to
      `left + 1` where the axis has zero width. */
  function AxisEdges(axis: nat, xs: seq<real>): Result<(real, real), DomainError> {
    if |xs| == 0 then Err(EmptyCoordinates(axis))
    else
      var lo := Min(xs);
      var hi := MaxOf(xs);
      Ok((lo, if hi == lo then lo + 1.0 else hi))
  }

  /** `lo`/`hi` bound the coordinates `xs` with `lo < hi`; `lo` is the
      smallest coordinate, and `hi` the largest unless all coordinates
      coincide, when it is `lo + 1`. */
  predicate Bounds(xs: seq<real>, lo: real, hi: real) {
    && lo in xs && lo < hi
    && (forall k :: 0 <= k < |xs| ==> lo <= xs[k] <= hi)
    && if AllAt(xs, lo) then hi == lo + 1.0 else hi in xs
  }

  /** Every coordinate is `x`. */
  predicate AllAt(xs: seq<real>, x: real) {
    forall k :: 0 <= k < |xs| ==> xs[k] == x
  }

  lemma AxisEdgesSpec(axis: nat, xs: seq<real>)
    ensures AxisEdges(axis, xs).Ok? <==> |xs| > 0
    ensures AxisEdges(axis, xs).Ok? ==> Bounds(xs, AxisEdges(axis, xs).value.0, AxisEdges(axis, xs).value.1)
  {
  }

  /** The left and right domain edges of the coordinate arrays from index
      `from` on. */
  function EdgesFrom(arrays: seq<seq<real>>, from: nat): Result<(seq<real>, seq<real>), DomainError>
    requires from <= |arrays|
    decreases |arrays| - from
  {
    if from == |arrays| then Ok(([], []))
    else
      var (lo, hi) :- AxisEdges(from, arrays[from]);
      var rest :- EdgesFrom(arrays, from + 1);
      Ok(([lo] + rest.0, [hi] + rest.1))
  }

  /** `IdefixVtkDataset._parse_parameter_file`'s domain edges. */
  function DomainEdges(arrays: seq<seq<real>>): Result<(seq<real>, seq<real>), DomainError> {
    EdgesFrom(arrays, 0)
  }

  /** The right edge lies strictly past the left edge on every axis, and
      every coordinate lies between them: the left edge is the smallest
      coordinate and the right edge the largest, or one past the left edge
      where all coordinates coincide. An empty array is an error. */
  lemma {:induction false} EdgesFromSpec(arrays: seq<seq<real>>, from: nat)
    requires from <= |arrays|
    ensures var r := EdgesFrom(arrays, from);
      && (r.Ok? <==> forall a :: from <= a < |arrays| ==> |arrays[a]| > 0)
      && (r.Ok? ==>
            && |r.value.0| == |arrays| - from && |r.value.1| == |arrays| - from
            && forall a :: from <= a < |arrays| ==> Bounds(arrays[a], r.value.0[a - from], r.value.1[a - from]))
    decreases |arrays| - from
  {
    if from < |arrays| {
      AxisEdgesSpec(from, arrays[from]);
      EdgesFromSpec(arrays, from + 1);
    }
  }

  lemma DomainEdgesSpec(arrays: seq<seq<real>>)
    ensures var r := DomainEdges(arrays);
      && (r.Ok? <==> forall a :: 0 <= a < |arrays| ==> |arrays[a]| > 0)
      && (r.Ok? ==>
            && |r.value.0| == |arrays| && |r.value.1| == |arrays|
            && forall a :: 0 <= a < |arrays| ==> Bounds(arrays[a], r.value.0[a], r.value.1[a]))
  {
    EdgesFromSpec(arrays, 0);
    var r := DomainEdges(arrays);
    if r.Ok? {
      forall a | 0 <= a < |arrays| ensures Bounds(arrays[a], r.value.0[a], r.value.1[a]) {
        assert a - 0 == a;
      }
    }
  }
}
