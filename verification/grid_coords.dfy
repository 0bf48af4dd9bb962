/** `read_grid_coordinates` of the PLUTO XDMF reader
    (yt_idefix/_io/h5_io.py): the geometry check, the choice between the
    slicing branch and the `mapFromCart` branch, the edge arrays the slicing
    branch cuts out of the stored node arrays, and the shape it hands to
    `to_cell_centered`. The HDF5 file is replaced by its three node arrays,
    stored row-major (C order) with one shared shape; `mapFromCart` and
    `to_cell_centered` are not part of this model and appear as the values
    they are applied to. */
module GridCoords {
  import opened Results

  /** The four geometries the reader accepts. */
  datatype Geometry = Cartesian | Polar | Spherical | Cylindrical

  /** The geometry codes of the binary formats and their names. */
  const KNOWN_GEOMETRIES: map<int, string> :=
    map[0 := "cartesian", 1 := "polar", 2 := "spherical", 3 := "cylindrical"]

  function Name(g: Geometry): string {
    match g
    case Cartesian => "cartesian"
    case Polar => "polar"
    case Spherical => "spherical"
    case Cylindrical => "cylindrical"
  }

  /** The numeric code of a geometry in the binary formats. */
  function Code(g: Geometry): int {
    match g
    case Cartesian => 0
    case Polar => 1
    case Spherical => 2
    case Cylindrical => 3
  }

  datatype GridError =
    | UnknownGeometry(given: Option<string>) // ValueError from the geometry check
    | NoAxes                                 // a node array without axes cannot be indexed
    | EmptyAxis                              // an index 0 on an axis of extent 0
    | TooManyAxes(dims: nat)                 // more than three axes

  /** The geometry check: `geometry` (possibly `None`) must be one of the
      names of `KNOWN_GEOMETRIES`. */
  function GeometryOf(s: Option<string>): (r: Result<Geometry, GridError>) {
    if s == Some("cartesian") then Ok(Cartesian)
    else if s == Some("polar") then Ok(Polar)
    else if s == Some("spherical") then Ok(Spherical)
    else if s == Some("cylindrical") then Ok(Cylindrical)
    else Err(UnknownGeometry(s))
  }

  /** The code table is 0 cartesian, 1 polar, 2 spherical, 3 cylindrical:
      exactly the codes of the four geometries, each under its name. */
  lemma KnownGeometriesTable()
    ensures forall g: Geometry :: Code(g) in KNOWN_GEOMETRIES && KNOWN_GEOMETRIES[Code(g)] == Name(g)
    ensures forall c :: c in KNOWN_GEOMETRIES ==> exists g: Geometry :: Code(g) == c
  {
    forall c | c in KNOWN_GEOMETRIES ensures exists g: Geometry :: Code(g) == c {
      if c == 0 { assert Code(Cartesian) == c; }
      else if c == 1 { assert Code(Polar) == c; }
      else if c == 2 { assert Code(Spherical) == c; }
      else { assert Code(Cylindrical) == c; }
    }
  }

  /** The check accepts exactly the names of the code table, and reads each
      name back as the geometry it names. */
  lemma GeometryOfSpec(s: Option<string>)
    ensures GeometryOf(s).Ok? <==> s.Some? && s.value in KNOWN_GEOMETRIES.Values
    ensures GeometryOf(s).Ok? ==> Name(GeometryOf(s).value) == s.value
    ensures GeometryOf(s).Err? ==> GeometryOf(s).error == UnknownGeometry(s)
  {
    assert KNOWN_GEOMETRIES[0] == "cartesian";
    assert KNOWN_GEOMETRIES[1] == "polar";
    assert KNOWN_GEOMETRIES[2] == "spherical";
    assert KNOWN_GEOMETRIES[3] == "cylindrical";
  }

  /** Every geometry's name passes the check and comes back unchanged. */
  lemma GeometryOfName(g: Geometry)
    ensures GeometryOf(Some(Name(g))) == Ok(g)
  {
  }

  // ---------------------------------------------------------------------
  // Branch selection

  /** Which branch of the reader a geometry and a node-array rank take. */
  datatype Branch = Slicing | FromCartesian

  predicate Curvilinear(g: Geometry) {
    g == Polar || g == Spherical
  }

  /** The `if`/`elif` of the reader; neither applies to a polar or
      spherical array without axes. */
  function BranchOf(g: Geometry, dims: nat): Option<Branch> {
    if g == Cartesian || g == Cylindrical || (Curvilinear(g) && dims == 1) then Some(Slicing)
    else if Curvilinear(g) && dims > 1 then Some(FromCartesian)
    else None
  }

  /** Arrays with at least one axis take exactly one branch: the
      `mapFromCart` branch when the geometry is polar or spherical and the
      arrays have more than one axis, the slicing branch otherwise. */
  lemma BranchOfSpec(g: Geometry, dims: nat)
    ensures dims >= 1 ==> BranchOf(g, dims).Some?
    ensures BranchOf(g, dims) == Some(FromCartesian) <==> Curvilinear(g) && dims > 1
    ensures BranchOf(g, dims) == Some(Slicing) <==> !Curvilinear(g) || dims == 1
  {
  }

  // ---------------------------------------------------------------------
  // Node arrays and the edges cut out of them

  /** The stored node arrays `/node_coords/X`, `Y`, `Z`, flattened in C
      order, with their common shape. */
  datatype NodeCoords = NodeCoords(shape: seq<nat>, x: seq<real>, y: seq<real>, z: seq<real>)

  /** Number of values an array of this shape holds. */
  function Count(shape: seq<nat>): nat {
    if |shape| == 0 then 1 else shape[0] * Count(shape[1..])
  }

  /** Each array holds one value per index of the shape. */
  predicate WellShaped(n: NodeCoords) {
    |n.x| == Count(n.shape) && |n.y| == Count(n.shape) && |n.z| == Count(n.shape)
  }

  /** Position in a C-ordered flat array of the multi-index `idx`: the
      stride of the first axis is the number of values of the others. */
  function RowMajor(shape: seq<nat>, idx: seq<nat>): nat
    requires |idx| == |shape|
  {
    if |shape| == 0 then 0
    else idx[0] * Count(shape[1..]) + RowMajor(shape[1..], idx[1..])
  }

  predicate InShape(shape: seq<nat>, idx: seq<nat>) {
    |idx| == |shape| && forall a :: 0 <= a < |shape| ==> idx[a] < shape[a]
  }

  lemma {:induction false} MulBound(i: nat, n: nat, m: nat)
    requires i < n
    ensures i * m + m <= n * m
    decreases n - i
  {
    if i + 1 < n {
      MulBound(i + 1, n, m);
    }
    assert (i + 1) * m == i * m + m;
  }

  /** A multi-index inside the shape has a position inside the array. */
  lemma {:induction false} RowMajorBound(shape: seq<nat>, idx: seq<nat>)
    requires InShape(shape, idx)
    ensures RowMajor(shape, idx) < Count(shape)
    decreases |shape|
  {
    if |shape| > 0 {
      assert InShape(shape[1..], idx[1..]) by {
        forall a | 0 <= a < |shape| - 1 ensures idx[1..][a] < shape[1..][a] {
          assert idx[a + 1] < shape[a + 1];
        }
      }
      RowMajorBound(shape[1..], idx[1..]);
      MulBound(idx[0], shape[0], Count(shape[1..]));
    }
  }

  /** One axis: the position is the index. */
  lemma RowMajor1(s: seq<nat>, j: nat)
    requires |s| == 1
    ensures Count(s) == s[0] && RowMajor(s, [j]) == j
  {
    assert s[1..] == [];
    assert [j][1..] == [];
  }

  lemma RowMajor2(s: seq<nat>, i: nat, j: nat)
    requires |s| == 2
    ensures Count(s) == s[0] * s[1] && RowMajor(s, [i, j]) == i * s[1] + j
  {
    assert [i, j][1..] == [j];
    RowMajor1(s[1..], j);
  }

  lemma RowMajor3(s: seq<nat>, i: nat, j: nat, k: nat)
    requires |s| == 3
    ensures RowMajor(s, [i, j, k]) == i * (s[1] * s[2]) + j * s[2] + k
  {
    assert [i, j, k][1..] == [j, k];
    RowMajor2(s[1..], j, k);
  }

  /** Where `Y[i, 0]`, `X[0, j]` and the like lie, for in-range indices. */
  lemma At2(s: seq<nat>, i: nat, j: nat)
    requires |s| == 2 && i < s[0] && j < s[1]
    ensures i * s[1] + j < Count(s)
  {
    RowMajor2(s, i, j);
    RowMajorBound(s, [i, j]);
  }

  lemma At3(s: seq<nat>, i: nat, j: nat, k: nat)
    requires |s| == 3 && i < s[0] && j < s[1] && k < s[2]
    ensures i * (s[1] * s[2]) + j * s[2] + k < Count(s)
  {
    RowMajor3(s, i, j, k);
    RowMajorBound(s, [i, j, k]);
  }

  /** The shape handed to `to_cell_centered`. The two-axis branches build
      it from one tuple argument; what that call does is not part of this
      model. */
  datatype Handed = Extents(extents: seq<nat>) | TupleArgument

  /** What the reader returns: the three edge arrays of the slicing branch,
      or `mapFromCart` applied to the (transposed) node arrays; with the
      shape handed to `to_cell_centered` either way. */
  datatype Coords =
    | Edges(x: seq<real>, y: seq<real>, z: seq<real>, handed: Handed)
    | FromCart(geometry: Geometry, nodes: NodeCoords, handed: Handed)

  const UNIT_EDGES: seq<real> := [0.0, 1.0]

  /** `2 * np.pi` as the double it evaluates to. */
  const TWO_PI: real := 6.28318530717958623199592693708837032318115234375

  function Reverse(s: seq<nat>): (r: seq<nat>)
    ensures |r| == |s|
    ensures forall i :: 0 <= i < |s| ==> r[i] == s[|s| - 1 - i]
  {
    if |s| == 0 then [] else Reverse(s[1..]) + [s[0]]
  }

  function Min3(a: nat, b: nat, c: nat): nat {
    if a <= b && a <= c then a else if b <= c then b else c
  }

  /** `nodes[0, :]` and `nodes[:, 0]` of a two-axis array of shape `s`. */
  function Row2(v: seq<real>, s: seq<nat>): (r: seq<real>)
    requires |s| == 2 && s[0] >= 1 && |v| == Count(s)
  {
    seq(s[1], j requires 0 <= j < s[1] => At2(s, 0, j); v[j])
  }

  function Column2(v: seq<real>, s: seq<nat>): (r: seq<real>)
    requires |s| == 2 && s[1] >= 1 && |v| == Count(s)
  {
    seq(s[0], i requires 0 <= i < s[0] => At2(s, i, 0); v[i * s[1]])
  }

  /** `nodes[0, 0, :]`, `nodes[0, :, 0]` and `nodes[:, 0, 0]` of a
      three-axis array of shape `s`. */
  function Line3X(v: seq<real>, s: seq<nat>): (r: seq<real>)
    requires |s| == 3 && s[0] >= 1 && s[1] >= 1 && |v| == Count(s)
  {
    seq(s[2], k requires 0 <= k < s[2] => At3(s, 0, 0, k); v[k])
  }

  function Line3Y(v: seq<real>, s: seq<nat>): (r: seq<real>)
    requires |s| == 3 && s[0] >= 1 && s[2] >= 1 && |v| == Count(s)
  {
    seq(s[1], j requires 0 <= j < s[1] => At3(s, 0, j, 0); v[j * s[2]])
  }

  function Line3Z(v: seq<real>, s: seq<nat>): (r: seq<real>)
    requires |s| == 3 && s[1] >= 1 && s[2] >= 1 && |v| == Count(s)
  {
    seq(s[0], i requires 0 <= i < s[0] => At3(s, i, 0, 0); v[i * (s[1] * s[2])])
  }

  /** The slicing branch: the node arrays themselves for one axis (with
      unit Y and Z edges), the lines through the first node for two or
      three axes (with a unit Z for cartesian and `[0, 2π]` otherwise when
      there are two). */
  function Sliced(g: Geometry, n: NodeCoords): (r: Result<Coords, GridError>)
    requires WellShaped(n)
  {
    var s := n.shape;
    if |s| == 1 then
      Ok(Edges(n.x, UNIT_EDGES, UNIT_EDGES, Extents([s[0], 1, 1])))
    else if |s| == 2 then
      if s[0] == 0 || s[1] == 0 then Err(EmptyAxis)
      else
        var z := if g == Cartesian then UNIT_EDGES else [0.0, TWO_PI];
        Ok(Edges(Row2(n.x, s), Column2(n.y, s), z, TupleArgument))
    else if |s| == 0 then Err(NoAxes)
    else if |s| > 3 then Err(TooManyAxes(|s|))
    else if Min3(s[0], s[1], s[2]) == 0 then Err(EmptyAxis)
    else
      Ok(Edges(Line3X(n.x, s), Line3Y(n.y, s), Line3Z(n.z, s),
               Extents(Reverse(s))))
  }

  /** `read_grid_coordinates(filename, geometry=geometry)` over the node
      arrays the file holds. */
  function ReadGridCoordinates(geometry: Option<string>, n: NodeCoords): Result<Coords, GridError>
    requires WellShaped(n)
  {
    var g :- GeometryOf(geometry);
    var dims := |n.shape|;
    match BranchOf(g, dims)
    case None => Err(NoAxes)
    case Some(Slicing) => Sliced(g, n)
    case Some(FromCartesian) =>
      if dims > 3 then Err(TooManyAxes(dims))
      else Ok(FromCart(g, n, if dims == 2 then TupleArgument else Extents(Reverse(n.shape))))
  }

  // ---------------------------------------------------------------------
  // Properties of the reader

  /** Any geometry outside the code table is rejected before the node
      arrays matter, and an accepted geometry is the one returned. */
  lemma UnknownGeometryRejected(geometry: Option<string>, n: NodeCoords)
    requires WellShaped(n)
    ensures geometry.None? || geometry.value !in KNOWN_GEOMETRIES.Values
            <==> ReadGridCoordinates(geometry, n) == Err(UnknownGeometry(geometry))
    ensures ReadGridCoordinates(geometry, n).Ok? && ReadGridCoordinates(geometry, n).value.FromCart? ==>
              geometry == Some(Name(ReadGridCoordinates(geometry, n).value.geometry))
  {
    GeometryOfSpec(geometry);
    if GeometryOf(geometry).Ok? {
      var g := GeometryOf(geometry).value;
      assert ReadGridCoordinates(geometry, n).Ok? || ReadGridCoordinates(geometry, n).error != UnknownGeometry(geometry);
    }
  }

  /** The shape handed to `to_cell_centered`: `(n, 1, 1)` for one axis,
      the stored shape reversed for three, whichever branch is taken. */
  lemma HandedShapes(geometry: Option<string>, n: NodeCoords)
    requires WellShaped(n)
    requires ReadGridCoordinates(geometry, n).Ok?
    ensures |n.shape| == 1 ==> ReadGridCoordinates(geometry, n).value.handed == Extents([n.shape[0], 1, 1])
    ensures |n.shape| == 3 ==> ReadGridCoordinates(geometry, n).value.handed
                                == Extents([n.shape[2], n.shape[1], n.shape[0]])
    ensures 1 <= |n.shape| <= 3
  {
    var g := GeometryOf(geometry).value;
    BranchOfSpec(g, |n.shape|);
    if |n.shape| == 3 {
      assert Reverse(n.shape) == [n.shape[2], n.shape[1], n.shape[0]];
    }
  }

  /** Default edges of the slicing branch: Y and Z are `[0, 1]` for one
      axis; for two, Z is `[0, 1]` in cartesian geometry and `[0, 2π]`
      otherwise. */
  lemma DefaultEdges(geometry: Option<string>, n: NodeCoords)
    requires WellShaped(n)
    requires ReadGridCoordinates(geometry, n).Ok?
    requires ReadGridCoordinates(geometry, n).value.Edges?
    ensures var c := ReadGridCoordinates(geometry, n).value;
      && (|n.shape| == 1 ==> c.x == n.x && c.y == [0.0, 1.0] && c.z == [0.0, 1.0])
      && (|n.shape| == 2 ==> c.z == (if geometry == Some("cartesian") then [0.0, 1.0] else [0.0, TWO_PI]))
  {
    var g := GeometryOf(geometry).value;
    GeometryOfSpec(geometry);
    BranchOfSpec(g, |n.shape|);
  }

  /** `v` holds `r` at position `pos`. */
  predicate HoldsAt(v: seq<real>, pos: nat, r: real) {
    pos < |v| && v[pos] == r
  }

  /** For two axes the X edges are the nodes `X[0, j]` and the Y edges the
      nodes `Y[i, 0]`, in C order. */
  lemma SlicedEdges2(geometry: Option<string>, n: NodeCoords)
    requires WellShaped(n) && |n.shape| == 2
    requires ReadGridCoordinates(geometry, n).Ok? && ReadGridCoordinates(geometry, n).value.Edges?
    ensures var c := ReadGridCoordinates(geometry, n).value;
      && |c.x| == n.shape[1] && |c.y| == n.shape[0]
      && (forall j :: 0 <= j < |c.x| ==> HoldsAt(n.x, RowMajor(n.shape, [0, j]), c.x[j]))
      && (forall i :: 0 <= i < |c.y| ==> HoldsAt(n.y, RowMajor(n.shape, [i, 0]), c.y[i]))
  {
    var c := Edges2Of(geometry, n);
    var s := n.shape;
    forall j | 0 <= j < |c.x| ensures HoldsAt(n.x, RowMajor(s, [0, j]), c.x[j]) {
      Row2At(n.x, s, j);
      RowMajor2(s, 0, j);
    }
    forall i | 0 <= i < |c.y| ensures HoldsAt(n.y, RowMajor(s, [i, 0]), c.y[i]) {
      Column2At(n.y, s, i);
      RowMajor2(s, i, 0);
    }
  }

  /** For two axes the reader's edges are the slices. */
  lemma Edges2Of(geometry: Option<string>, n: NodeCoords) returns (c: Coords)
    requires WellShaped(n) && |n.shape| == 2
    requires ReadGridCoordinates(geometry, n).Ok? && ReadGridCoordinates(geometry, n).value.Edges?
    ensures c == ReadGridCoordinates(geometry, n).value && c.Edges?
    ensures n.shape[0] >= 1 && n.shape[1] >= 1 && c.x == Row2(n.x, n.shape) && c.y == Column2(n.y, n.shape)
  {
    c := ReadGridCoordinates(geometry, n).value;
  }

  lemma Row2At(v: seq<real>, s: seq<nat>, j: nat)
    requires |s| == 2 && s[0] >= 1 && |v| == Count(s) && j < s[1]
    ensures |Row2(v, s)| == s[1] && j < |v| && Row2(v, s)[j] == v[j]
  {
    At2(s, 0, j);
  }

  lemma Column2At(v: seq<real>, s: seq<nat>, i: nat)
    requires |s| == 2 && s[1] >= 1 && |v| == Count(s) && i < s[0]
    ensures |Column2(v, s)| == s[0] && i * s[1] < |v| && Column2(v, s)[i] == v[i * s[1]]
  {
    At2(s, i, 0);
  }

  /** For three axes the edges are the nodes along the three lines through
      the first node: `X[0, 0, k]`, `Y[0, j, 0]` and `Z[i, 0, 0]`. */
  lemma SlicedEdges3(geometry: Option<string>, n: NodeCoords)
    requires WellShaped(n) && |n.shape| == 3
    requires ReadGridCoordinates(geometry, n).Ok? && ReadGridCoordinates(geometry, n).value.Edges?
    ensures var c := ReadGridCoordinates(geometry, n).value;
      && |c.x| == n.shape[2] && |c.y| == n.shape[1] && |c.z| == n.shape[0]
      && (forall k :: 0 <= k < |c.x| ==> HoldsAt(n.x, RowMajor(n.shape, [0, 0, k]), c.x[k]))
      && (forall j :: 0 <= j < |c.y| ==> HoldsAt(n.y, RowMajor(n.shape, [0, j, 0]), c.y[j]))
      && (forall i :: 0 <= i < |c.z| ==> HoldsAt(n.z, RowMajor(n.shape, [i, 0, 0]), c.z[i]))
  {
    var s := n.shape;
    var c := ReadGridCoordinates(geometry, n).value;
    assert Min3(s[0], s[1], s[2]) != 0;
    assert c.x == Line3X(n.x, s) && c.y == Line3Y(n.y, s) && c.z == Line3Z(n.z, s);
    Lines3(n.x, n.y, n.z, s);
  }

  lemma Lines3(x: seq<real>, y: seq<real>, z: seq<real>, s: seq<nat>)
    requires |s| == 3 && s[0] >= 1 && s[1] >= 1 && s[2] >= 1
    requires |x| == Count(s) && |y| == Count(s) && |z| == Count(s)
    ensures var (cx, cy, cz) := (Line3X(x, s), Line3Y(y, s), Line3Z(z, s));
      && |cx| == s[2] && |cy| == s[1] && |cz| == s[0]
      && (forall k :: 0 <= k < |cx| ==> HoldsAt(x, RowMajor(s, [0, 0, k]), cx[k]))
      && (forall j :: 0 <= j < |cy| ==> HoldsAt(y, RowMajor(s, [0, j, 0]), cy[j]))
      && (forall i :: 0 <= i < |cz| ==> HoldsAt(z, RowMajor(s, [i, 0, 0]), cz[i]))
  {
    forall k | 0 <= k < s[2] ensures HoldsAt(x, RowMajor(s, [0, 0, k]), Line3X(x, s)[k]) {
      Line3At(x, s, 0, 0, k);
    }
    forall j | 0 <= j < s[1] ensures HoldsAt(y, RowMajor(s, [0, j, 0]), Line3Y(y, s)[j]) {
      Line3At(y, s, 0, j, 0);
    }
    forall i | 0 <= i < s[0] ensures HoldsAt(z, RowMajor(s, [i, 0, 0]), Line3Z(z, s)[i]) {
      Line3At(z, s, i, 0, 0);
    }
  }

  /** The value at an in-range multi-index, by its stride formula. */
  lemma Line3At(v: seq<real>, s: seq<nat>, i: nat, j: nat, k: nat)
    requires |s| == 3 && i < s[0] && j < s[1] && k < s[2] && |v| == Count(s)
    ensures RowMajor(s, [i, j, k]) < |v|
    ensures i == 0 && j == 0 ==> RowMajor(s, [i, j, k]) == k
    ensures i == 0 && k == 0 ==> RowMajor(s, [i, j, k]) == j * s[2]
    ensures j == 0 && k == 0 ==> RowMajor(s, [i, j, k]) == i * (s[1] * s[2])
  {
    RowMajorBound(s, [i, j, k]);
    RowMajor3(s, i, j, k);
    var a := i * (s[1] * s[2]);
    var b := j * s[2];
    assert i == 0 ==> a == 0;
    assert j == 0 ==> b == 0;
  }
}
