/**
 * Cells of the search grid: a square given by its centre and half its side,
 * with the signed distance from the centre to the polygon and the largest
 * distance any point of the square could have, and the centroid cell that
 * seeds the best guess.
 */
module Cells {
  import opened Geometry
  import PriorityQueue

  /** A cell: centre (x, y), half side h, centre distance d, and the bound
      `max = d + h * SQRT2` on the distance of any point in the cell. */
  datatype Cell = Cell(x: real, y: real, h: real, d: real, max: real)

  /** `Math.SQRT2`, the double nearest to the square root of 2. */
  const SQRT2: real := 1.4142135623730951

  /** `f` gives the signed distance from every point to the polygon. */
  ghost predicate IsDistance(f: (real, real) -> real, polygon: Polygon, sqrt: real -> real) {
    forall x, y {:trigger SignedDist(x, y, polygon, sqrt)} :: SignedDist(x, y, polygon, sqrt) == Finite(f(x, y))
  }

  /** A polygon with an edge has a signed distance at every point. */
  lemma DistanceExists(polygon: Polygon, sqrt: real -> real)
    requires HasEdge(polygon)
    ensures exists f :: IsDistance(f, polygon, sqrt)
  {
    var f := (x, y) => match SignedDist(x, y, polygon, sqrt) case Finite(v) => v case MinusInfinity => 0.0;
    assert IsDistance(f, polygon, sqrt);
  }

  /** The signed distance to a polygon with an edge, as a function of the
      point. */
  ghost function DistanceTo(polygon: Polygon, sqrt: real -> real): (dist: (real, real) -> real)
    requires HasEdge(polygon)
    ensures IsDistance(dist, polygon, sqrt)
  {
    DistanceExists(polygon, sqrt);
    var f :| IsDistance(f, polygon, sqrt); f
  }

  /** `dist` is the signed distance to the polygon, which has an edge, so
      that every distance is finite. */
  ghost predicate Measures(dist: (real, real) -> real, polygon: Polygon, sqrt: real -> real) {
    HasEdge(polygon) && dist == DistanceTo(polygon, sqrt)
  }

  /** A polygon with an edge has a distance function that measures it. */
  lemma DistanceToMeasures(polygon: Polygon, sqrt: real -> real) returns (dist: (real, real) -> real)
    requires HasEdge(polygon)
    ensures Measures(dist, polygon, sqrt)
  {
    dist := DistanceTo(polygon, sqrt);
  }

  /** A distance function that measures a polygon gives the signed distance
      of every point. */
  lemma MeasuresSignedDist(dist: (real, real) -> real, polygon: Polygon, sqrt: real -> real, x: real, y: real)
    requires Measures(dist, polygon, sqrt)
    ensures SignedDist(x, y, polygon, sqrt) == Finite(dist(x, y))
  {
  }

  /** `new Cell(x, y, h, polygon)` as a value, for the distance function of
      the polygon. */
  function CellAt(x: real, y: real, h: real, dist: (real, real) -> real): (c: Cell)
    ensures c.x == x && c.y == y && c.h == h
    ensures 0.0 <= h ==> c.d <= c.max
    ensures h == 0.0 ==> c.max == c.d
  {
    var d := dist(x, y);
    Cell(x, y, h, d, d + h * SQRT2)
  }

  /** The cell was built by the constructor. */
  ghost predicate Built(c: Cell, dist: (real, real) -> real) {
    c == CellAt(c.x, c.y, c.h, dist)
  }

  /** A built cell holds the signed distance from its centre. */
  lemma BuiltDistance(c: Cell, dist: (real, real) -> real, polygon: Polygon, sqrt: real -> real)
    requires Measures(dist, polygon, sqrt) && Built(c, dist)
    ensures SignedDist(c.x, c.y, polygon, sqrt) == Finite(c.d)
    ensures c.max == c.d + c.h * SQRT2
  {
    MeasuresSignedDist(dist, polygon, sqrt, c.x, c.y);
  }

  /** The `Cell` constructor: one distance probe, then the bound. */
  method NewCell(x: real, y: real, h: real, polygon: Polygon, sqrt: real -> real, ghost dist: (real, real) -> real)
    returns (c: Cell)
    requires Measures(dist, polygon, sqrt)
    ensures c == CellAt(x, y, h, dist)
    ensures Built(c, dist)
  {
    var d := PointToPolygonDist(x, y, polygon, sqrt);
    MeasuresSignedDist(dist, polygon, sqrt, x, y);
    c := Cell(x, y, h, d.value, d.value + h * SQRT2);
  }

  /** The queue's comparator `(a, b) => b.max - a.max`: the cell with the
      larger bound leaves the queue first. */
  function CellCompare(a: Cell, b: Cell): (r: real)
    ensures r < 0.0 <==> b.max < a.max
    ensures r > 0.0 <==> a.max < b.max
  {
    b.max - a.max
  }

  lemma CellCompareIsValid()
    ensures PriorityQueue.ValidComparator(CellCompare)
  {
  }

  /** The accumulators of `getCentroidCell`: `area` gathers 3 f, `x` and `y`
      gather the vertex sums weighted by f, where f is the cross product of
      the edge's two points. */
  datatype Sums = Sums(area: real, x: real, y: real)

  /** The cross product `a.x * b.y - b.x * a.y` of edge (a, b). */
  function Cross(a: Point, b: Point): real {
    a.x * b.y - b.x * a.y
  }

  /** What one step of `getCentroidCell` adds for edge (a, b). */
  function CentroidStep(a: Point, b: Point): Sums {
    var f := Cross(a, b);
    Sums(f * 3.0, (a.x + b.x) * f, (a.y + b.y) * f)
  }

  /** The accumulators after the first n edges (point i, point Prev(i)).
      After n >= 1 steps they hold the flipped textbook sums of the closing
      edge and of the first n - 1 forward edges. */
  function CentroidSums(ring: Ring, n: nat): (s: Sums)
    requires n <= |ring|
    ensures 1 <= n ==>
      s == Flipped(Plus(ShoelaceTerm(ring[|ring| - 1], ring[0]), ShoelaceSums(ring, n - 1)))
  {
    if n == 0 then Sums(0.0, 0.0, 0.0)
    else
      var a, b := ring[n - 1], ring[Prev(n - 1, |ring|)];
      StepIsFlippedTerm(a, b);
      assert 2 <= n ==> Next(n - 2, |ring|) == n - 1;
      Plus(CentroidSums(ring, n - 1), CentroidStep(a, b))
  }

  /** Index of the point that follows point `i` in a ring of `n` points. */
  function Next(i: nat, n: nat): nat
    requires i < n
  {
    if i == n - 1 then 0 else i + 1
  }

  function Plus(s: Sums, t: Sums): Sums {
    Sums(s.area + t.area, s.x + t.x, s.y + t.y)
  }

  /** The terms of the textbook shoelace and centroid sums for edge (a, b)
      traversed from a to b. */
  function ShoelaceTerm(a: Point, b: Point): Sums {
    Sums(Cross(a, b), (a.x + b.x) * Cross(a, b), (a.y + b.y) * Cross(a, b))
  }

  /** The textbook sums over the first n edges (point k, point Next(k)):
      `area` is twice the signed area (positive for counter-clockwise rings),
      and the centroid is (x, y) / (3 area). */
  function ShoelaceSums(ring: Ring, n: nat): Sums
    requires n <= |ring|
  {
    if n == 0 then Sums(0.0, 0.0, 0.0)
    else Plus(ShoelaceSums(ring, n - 1), ShoelaceTerm(ring[n - 1], ring[Next(n - 1, |ring|)]))
  }

  /** What the accumulators of `getCentroidCell` hold for given textbook sums:
      the edges are walked backwards, which flips every sign, and the area is
      counted three times over. */
  function Flipped(s: Sums): Sums {
    Sums(-3.0 * s.area, -s.x, -s.y)
  }

  /** One step of `getCentroidCell` on edge (a, b) is the flipped textbook
      term of the edge taken from b to a. */
  lemma StepIsFlippedTerm(a: Point, b: Point)
    ensures CentroidStep(a, b) == Flipped(ShoelaceTerm(b, a))
  {
    assert Cross(a, b) == -Cross(b, a);
    assert (a.x + b.x) * Cross(a, b) == -((b.x + a.x) * Cross(b, a));
    assert (a.y + b.y) * Cross(a, b) == -((b.y + a.y) * Cross(b, a));
  }

  /** The accumulators of `getCentroidCell` are the textbook shoelace and
      centroid sums of the outer ring, flipped and with the area tripled. */
  lemma CentroidSumsAreShoelace(ring: Ring)
    requires |ring| > 0
    ensures CentroidSums(ring, |ring|) == Flipped(ShoelaceSums(ring, |ring|))
  {
  }

  lemma FlippedQuotient(v: real, area: real)
    requires area != 0.0
    ensures -v / (-3.0 * area) == v / (3.0 * area)
  {
    var q := v / (3.0 * area);
    assert q * (3.0 * area) == v;
    assert q * (-3.0 * area) == -v;
  }

  /** The centroid cell sits at the area centroid of the outer ring, whatever
      its orientation; a ring of zero area puts it on its first point. */
  lemma CentroidCellIsAreaCentroid(polygon: Polygon, dist: (real, real) -> real)
    requires |polygon| > 0 && |polygon[0]| > 0
    ensures var ring := polygon[0];
      var s := ShoelaceSums(ring, |ring|);
      var c := CentroidCell(polygon, dist);
      (s.area == 0.0 ==> c.x == ring[0].x && c.y == ring[0].y) &&
      (s.area != 0.0 ==> c.x == s.x / (3.0 * s.area) && c.y == s.y / (3.0 * s.area))
  {
    var ring := polygon[0];
    var s := ShoelaceSums(ring, |ring|);
    CentroidSumsAreShoelace(ring);
    if s.area != 0.0 {
      FlippedQuotient(s.x, s.area);
      FlippedQuotient(s.y, s.area);
    }
  }

  /** `getCentroidCell` as a value: the cell of size 0 at the centroid of the
      outer ring, or at its first point when the ring encloses no area. */
  function CentroidCell(polygon: Polygon, dist: (real, real) -> real): (c: Cell)
    requires |polygon| > 0 && |polygon[0]| > 0
    ensures c.h == 0.0
  {
    var ring := polygon[0];
    var s := CentroidSums(ring, |ring|);
    if s.area == 0.0 then CellAt(ring[0].x, ring[0].y, 0.0, dist)
    else CellAt(s.x / s.area, s.y / s.area, 0.0, dist)
  }

  /** The body of the loop of `getCentroidCell` for edge (a, b). */
  method AddEdge(area: real, x: real, y: real, a: Point, b: Point) returns (area': real, x': real, y': real)
    ensures Sums(area', x', y') == Plus(Sums(area, x, y), CentroidStep(a, b))
  {
    var f := a.x * b.y - b.x * a.y;
    x' := x + (a.x + b.x) * f;
    y' := y + (a.y + b.y) * f;
    area' := area + f * 3.0;
  }

  /** `getCentroidCell`: one pass over the edges of the outer ring. */
  method GetCentroidCell(polygon: Polygon, sqrt: real -> real, ghost dist: (real, real) -> real) returns (c: Cell)
    requires |polygon| > 0 && |polygon[0]| > 0 && Measures(dist, polygon, sqrt)
    ensures c == CentroidCell(polygon, dist)
  {
    var area, x, y := 0.0, 0.0, 0.0;
    var points := polygon[0];
    var len := |points|;
    var i, j := 0, len - 1;
    while i < len
      invariant 0 <= i <= len && j == (if i == 0 then len - 1 else i - 1)
      invariant Sums(area, x, y) == CentroidSums(points, i)
    {
      var a, b := points[i], points[j];
      area, x, y := AddEdge(area, x, y, a, b);
      j, i := i, i + 1;
    }
    if area == 0.0 {
      c := NewCell(points[0].x, points[0].y, 0.0, polygon, sqrt, dist);
    } else {
      c := NewCell(x / area, y / area, 0.0, polygon, sqrt, dist);
    }
  }
}
