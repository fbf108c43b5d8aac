/**
 * Distance primitives of the pole-of-inaccessibility search: the squared
 * distance from a point to a segment, and the signed distance from a point to
 * the boundary of a polygon given as a sequence of rings.
 *
 * Coordinates are reals. `Math.sqrt` is the parameter `sqrt`, of which only
 * `RootLike` is assumed.
 */
module Geometry {
  import opened Wrappers

  datatype Point = Point(x: real, y: real)

  /** A ring lists its points in order; the closing edge joins the last point
      to the first, so a ring need not repeat its first point. */
  type Ring = seq<Point>

  /** The first ring is the outer boundary, later rings are holes. */
  type Polygon = seq<Ring>

  /** What the model assumes of `Math.sqrt`: positive on positive inputs. */
  ghost predicate RootLike(sqrt: real -> real) {
    forall v :: 0.0 < v ==> 0.0 < sqrt(v)
  }

  /** A signed distance, or the `-Infinity` that a polygon without any edge
      yields. */
  datatype Extended = MinusInfinity | Finite(value: real)

  predicate Positive(v: real) {
    0.0 < v
  }

  lemma SumOfSquaresPositive(dx: real, dy: real)
    ensures dx != 0.0 || dy != 0.0 ==> Positive(dx * dx + dy * dy)
  {
    assert 0.0 <= dx * dx && 0.0 <= dy * dy;
    if dx != 0.0 || dy != 0.0 {
      assert dx < 0.0 || 0.0 < dx || dy < 0.0 || 0.0 < dy;
    }
  }

  function SqNorm(dx: real, dy: real): (r: real)
    ensures 0.0 <= r
    ensures dx != 0.0 || dy != 0.0 ==> 0.0 < r
  {
    SumOfSquaresPositive(dx, dy);
    assert dx != 0.0 || dy != 0.0 ==> Positive(dx * dx + dy * dy);
    dx * dx + dy * dy
  }

  function DistSq(px: real, py: real, q: Point): (r: real)
    ensures 0.0 <= r
  {
    SqNorm(px - q.x, py - q.y)
  }

  /** The projection parameter `t` of the point on the line through the edge. */
  function Projection(px: real, py: real, a: Point, b: Point): (t: real)
    requires b.x - a.x != 0.0 || b.y - a.y != 0.0
    ensures Scaled(t, SqNorm(b.x - a.x, b.y - a.y), Dot(px, py, a, b))
  {
    Dot(px, py, a, b) / SqNorm(b.x - a.x, b.y - a.y)
  }

  /** The point a + t (b - a). */
  function Lerp(a: Point, b: Point, t: real): Point {
    Point(a.x + (b.x - a.x) * t, a.y + (b.y - a.y) * t)
  }

  /** The point of edge (a, b) that `getSegDistSq` measures to: the projection
      parameter is clamped to [0, 1]; a zero-length edge gives `a`. */
  function Closest(px: real, py: real, a: Point, b: Point): (c: Point)
    ensures exists t :: 0.0 <= t <= 1.0 && c == Lerp(a, b, t)
  {
    if b.x - a.x != 0.0 || b.y - a.y != 0.0 then
      var t := Projection(px, py, a, b);
      if t > 1.0 then assert b == Lerp(a, b, 1.0); b
      else if t > 0.0 then Lerp(a, b, t)
      else assert a == Lerp(a, b, 0.0); a
    else assert a == Lerp(a, b, 0.0); a
  }

  /** `getSegDistSq`: the squared distance to the clamped projection. */
  function SegDistSq(px: real, py: real, a: Point, b: Point): (r: real)
    ensures 0.0 <= r
  {
    DistSq(px, py, Closest(px, py, a, b))
  }

  /** `t * len == s`, kept as one fact. */
  predicate Scaled(t: real, len: real, s: real) {
    t * len == s
  }

  /** `dt` is the squared distance at parameter `t`, written from the one at 0. */
  predicate Along(dt: real, da: real, s: real, len: real, t: real) {
    dt == da - 2.0 * t * s + t * t * len
  }

  /** The component of (px, py) - a along b - a. */
  function Dot(px: real, py: real, a: Point, b: Point): real {
    (px - a.x) * (b.x - a.x) + (py - a.y) * (b.y - a.y)
  }

  /** Squared distance from (px, py) to (qx, qy) = (ax, ay) + t (dx, dy), written from the one to (ax, ay). */
  lemma ExpandAlong(px: real, py: real, ax: real, ay: real, dx: real, dy: real, t: real, qx: real, qy: real)
    requires qx == ax + dx * t && qy == ay + dy * t
    ensures Along(SqNorm(px - qx, py - qy), SqNorm(px - ax, py - ay), (px - ax) * dx + (py - ay) * dy, SqNorm(dx, dy), t)
  {
  }

  lemma ExpandFar(px: real, py: real, a: Point, b: Point)
    ensures Along(DistSq(px, py, b), DistSq(px, py, a), Dot(px, py, a, b), SqNorm(b.x - a.x, b.y - a.y), 1.0)
  {
    ExpandAlong(px, py, a.x, a.y, b.x - a.x, b.y - a.y, 1.0, b.x, b.y);
  }

  lemma FarEnd(da: real, db: real, s: real, len: real, t: real)
    requires 0.0 < len && Scaled(t, len, s) && 1.0 < t
    requires Along(db, da, s, len, 1.0)
    ensures db <= da
  {
    assert 0.0 < (t - 1.0) * len;
  }

  lemma NearEnd(da: real, db: real, s: real, len: real, t: real)
    requires 0.0 < len && Scaled(t, len, s) && t <= 0.0
    requires Along(db, da, s, len, 1.0)
    ensures da <= db
  {
    assert t * len <= 0.0;
  }

  lemma Between(da: real, db: real, dt: real, s: real, len: real, t: real)
    requires 0.0 < len && Scaled(t, len, s) && 0.0 < t <= 1.0
    requires Along(db, da, s, len, 1.0)
    requires Along(dt, da, s, len, t)
    ensures dt <= da && dt <= db
  {
    var w := 1.0 - t;
    assert t * s == t * t * len;
    assert 0.0 <= t * t * len;
    assert db - dt == len * (w * w);
    assert 0.0 <= w * w;
  }

  /** Beyond the far end the clamped point is `b`, which is no farther than `a`. */
  lemma FarCase(px: real, py: real, a: Point, b: Point)
    requires b.x - a.x != 0.0 || b.y - a.y != 0.0
    requires Projection(px, py, a, b) > 1.0
    ensures SegDistSq(px, py, a, b) == DistSq(px, py, b) <= DistSq(px, py, a)
  {
    ExpandFar(px, py, a, b);
    FarEnd(DistSq(px, py, a), DistSq(px, py, b), Dot(px, py, a, b), SqNorm(b.x - a.x, b.y - a.y), Projection(px, py, a, b));
  }

  /** Before the near end the clamped point is `a`, which is no farther than `b`. */
  lemma NearCase(px: real, py: real, a: Point, b: Point)
    requires b.x - a.x != 0.0 || b.y - a.y != 0.0
    requires Projection(px, py, a, b) <= 0.0
    ensures SegDistSq(px, py, a, b) == DistSq(px, py, a) <= DistSq(px, py, b)
  {
    ExpandFar(px, py, a, b);
    NearEnd(DistSq(px, py, a), DistSq(px, py, b), Dot(px, py, a, b), SqNorm(b.x - a.x, b.y - a.y), Projection(px, py, a, b));
  }

  /** Inside the edge the clamped point is the foot of the perpendicular,
      no farther than either end. */
  lemma InnerClosest(px: real, py: real, a: Point, b: Point)
    requires b.x - a.x != 0.0 || b.y - a.y != 0.0
    requires 0.0 < Projection(px, py, a, b) <= 1.0
    ensures SegDistSq(px, py, a, b) == DistSq(px, py, Lerp(a, b, Projection(px, py, a, b)))
  {
  }

  lemma ExpandInner(px: real, py: real, a: Point, b: Point, t: real)
    ensures Along(DistSq(px, py, Lerp(a, b, t)), DistSq(px, py, a), Dot(px, py, a, b), SqNorm(b.x - a.x, b.y - a.y), t)
  {
    var q := Lerp(a, b, t);
    ExpandAlong(px, py, a.x, a.y, b.x - a.x, b.y - a.y, t, q.x, q.y);
  }

  lemma InnerCase(px: real, py: real, a: Point, b: Point)
    requires b.x - a.x != 0.0 || b.y - a.y != 0.0
    requires 0.0 < Projection(px, py, a, b) <= 1.0
    ensures SegDistSq(px, py, a, b) <= DistSq(px, py, a)
    ensures SegDistSq(px, py, a, b) <= DistSq(px, py, b)
  {
    var t := Projection(px, py, a, b);
    InnerClosest(px, py, a, b);
    ExpandFar(px, py, a, b);
    ExpandInner(px, py, a, b, t);
    Between(DistSq(px, py, a), DistSq(px, py, b), DistSq(px, py, Lerp(a, b, t)), Dot(px, py, a, b), SqNorm(b.x - a.x, b.y - a.y), t);
  }

  /** The segment distance never exceeds the distance to either endpoint, and
      is the distance to `a` when the edge has zero length. */
  lemma SegDistSqBounds(px: real, py: real, a: Point, b: Point)
    ensures a == b ==> SegDistSq(px, py, a, b) == DistSq(px, py, a)
    ensures SegDistSq(px, py, a, b) <= DistSq(px, py, a)
    ensures SegDistSq(px, py, a, b) <= DistSq(px, py, b)
  {
    if b.x - a.x != 0.0 || b.y - a.y != 0.0 {
      var t := Projection(px, py, a, b);
      if t > 1.0 {
        FarCase(px, py, a, b);
      } else if t > 0.0 {
        InnerCase(px, py, a, b);
      } else {
        NearCase(px, py, a, b);
      }
    }
  }

  /** Beyond the far end, no point of the edge is nearer than `b`. */
  lemma FarBelow(da: real, db: real, ds: real, dot: real, len: real, t: real, s: real)
    requires 0.0 < len && Scaled(t, len, dot) && 1.0 < t && 0.0 <= s <= 1.0
    requires Along(db, da, dot, len, 1.0) && Along(ds, da, dot, len, s)
    ensures db <= ds
  {
    var k := 2.0 * t - 1.0 - s;
    assert ds - db == (1.0 - s) * (2.0 * dot - len * (1.0 + s));
    assert 2.0 * dot - len * (1.0 + s) == len * k;
    assert 0.0 <= len * k;
    assert 0.0 <= (1.0 - s) * (len * k);
  }

  /** Before the near end, no point of the edge is nearer than `a`. */
  lemma NearBelow(da: real, ds: real, dot: real, len: real, t: real, s: real)
    requires 0.0 < len && Scaled(t, len, dot) && t <= 0.0 && 0.0 <= s <= 1.0
    requires Along(ds, da, dot, len, s)
    ensures da <= ds
  {
    assert dot <= 0.0;
    assert 0.0 <= s * len;
    assert ds - da == s * (s * len - 2.0 * dot);
    assert 0.0 <= s * (s * len - 2.0 * dot);
  }

  /** Inside the edge, no point of the edge is nearer than the foot of the
      perpendicular. */
  lemma InnerBelow(da: real, dt: real, ds: real, dot: real, len: real, t: real, s: real)
    requires 0.0 < len && Scaled(t, len, dot)
    requires Along(dt, da, dot, len, t) && Along(ds, da, dot, len, s)
    ensures dt <= ds
  {
    assert ds - dt == len * ((s - t) * (s - t));
    assert 0.0 <= (s - t) * (s - t);
  }

  /** `getSegDistSq` is the squared distance from the point to the segment:
      the point it measures to lies on the segment (as `Closest` promises),
      and no point of the segment is nearer. */
  lemma SegDistSqIsLeast(px: real, py: real, a: Point, b: Point, s: real)
    requires 0.0 <= s <= 1.0
    ensures SegDistSq(px, py, a, b) <= DistSq(px, py, Lerp(a, b, s))
  {
    var q := Lerp(a, b, s);
    if b.x - a.x != 0.0 || b.y - a.y != 0.0 {
      var t := Projection(px, py, a, b);
      var da, db, ds := DistSq(px, py, a), DistSq(px, py, b), DistSq(px, py, q);
      var dot, len := Dot(px, py, a, b), SqNorm(b.x - a.x, b.y - a.y);
      ExpandFar(px, py, a, b);
      ExpandInner(px, py, a, b, s);
      if t > 1.0 {
        assert Closest(px, py, a, b) == Lerp(a, b, 1.0);
        FarCase(px, py, a, b);
        FarBelow(da, db, ds, dot, len, t, s);
      } else if t > 0.0 {
        assert Closest(px, py, a, b) == Lerp(a, b, t);
        InnerClosest(px, py, a, b);
        ExpandInner(px, py, a, b, t);
        InnerBelow(da, DistSq(px, py, Lerp(a, b, t)), ds, dot, len, t, s);
      } else {
        assert Closest(px, py, a, b) == Lerp(a, b, 0.0);
        NearBelow(da, ds, dot, len, t, s);
      }
    } else {
      assert q == a;
      assert Closest(px, py, a, b) == Lerp(a, b, 0.0);
    }
  }

  /** Index of the point that precedes point `i` in a ring of `n` points:
      the ring's edges are (point i, point Prev(i)). */
  function Prev(i: nat, n: nat): nat
    requires i < n
  {
    if i == 0 then n - 1 else i - 1
  }

  /** The horizontal ray from (x, y) towards +x crosses edge (a, b): the
      edge straddles the ray's line and meets it to the right of x. The
      division is reached only when `a.y != b.y`. */
  predicate Crosses(x: real, y: real, a: Point, b: Point)
    ensures Crosses(x, y, a, b) ==> a.y != b.y && (a.y <= y < b.y || b.y <= y < a.y)
  {
    (a.y > y) != (b.y > y) && x < (b.x - a.x) * (y - a.y) / (b.y - a.y) + a.x
  }

  /** Squared distance from (x, y) to edge i of ring k. */
  function EdgeDistSq(x: real, y: real, polygon: Polygon, k: nat, i: nat): real
    requires k < |polygon| && i < |polygon[k]|
  {
    SegDistSq(x, y, polygon[k][i], polygon[k][Prev(i, |polygon[k]|)])
  }

  /** `Math.min` against the running minimum, whose `Infinity` seed is `None`. */
  function MinWith(m: Option<real>, d: real): (r: Option<real>)
    ensures r.Some? && r.value <= d && (m.Some? ==> r.value <= m.value)
    ensures r == Some(d) || r == m
  {
    if m.Some? && m.value <= d then m else Some(d)
  }

  /** Crossings among the first n edges of a ring. */
  function RingCrossings(x: real, y: real, ring: Ring, n: nat): nat
    requires n <= |ring|
  {
    if n == 0 then 0
    else RingCrossings(x, y, ring, n - 1) + (if Crosses(x, y, ring[n - 1], ring[Prev(n - 1, |ring|)]) then 1 else 0)
  }

  /** Crossings over all edges of the first k rings, counted together. */
  function Crossings(x: real, y: real, polygon: Polygon, k: nat): nat
    requires k <= |polygon|
  {
    if k == 0 then 0
    else Crossings(x, y, polygon, k - 1) + RingCrossings(x, y, polygon[k - 1], |polygon[k - 1]|)
  }

  /** The running minimum after the first n edges of a ring, from `acc`. */
  function RingMinSq(x: real, y: real, ring: Ring, n: nat, acc: Option<real>): Option<real>
    requires n <= |ring|
  {
    if n == 0 then acc
    else MinWith(RingMinSq(x, y, ring, n - 1, acc), SegDistSq(x, y, ring[n - 1], ring[Prev(n - 1, |ring|)]))
  }

  /** The running minimum after all edges of the first k rings. */
  function MinSq(x: real, y: real, polygon: Polygon, k: nat): Option<real>
    requires k <= |polygon|
  {
    if k == 0 then None
    else RingMinSq(x, y, polygon[k - 1], |polygon[k - 1]|, MinSq(x, y, polygon, k - 1))
  }

  predicate Odd(n: nat) {
    n % 2 == 1
  }

  lemma OddNext(n: nat)
    ensures Odd(n + 1) == !Odd(n)
  {
  }

  /** Some ring among the first k has at least one point (hence an edge). */
  predicate HasEdgeBelow(polygon: Polygon, k: nat)
    requires k <= |polygon|
  {
    exists j :: 0 <= j < k && |polygon[j]| > 0
  }

  predicate HasEdge(polygon: Polygon) {
    HasEdgeBelow(polygon, |polygon|)
  }

  /** `pointToPolygonDist` as a function of its inputs: exactly 0 on the
      boundary; otherwise the root of the least squared edge distance, negated
      when the even-odd count over all rings together says "outside";
      `-Infinity` exactly when no ring has a point. */
  function SignedDist(x: real, y: real, polygon: Polygon, sqrt: real -> real): (r: Extended)
    ensures r.Finite? <==> HasEdge(polygon)
  {
    MinSqIsLeast(x, y, polygon, |polygon|);
    match MinSq(x, y, polygon, |polygon|)
    case None => MinusInfinity
    case Some(m) =>
      if m == 0.0 then Finite(0.0)
      else if Odd(Crossings(x, y, polygon, |polygon|)) then Finite(sqrt(m))
      else Finite(-sqrt(m))
  }

  /** The body of the inner loop of `pointToPolygonDist` for edge (a, b):
      toggle the flag when the edge crosses the ray, and keep the smaller
      squared distance. */
  method ScanEdge(x: real, y: real, a: Point, b: Point, inside: bool, minDistSq: Option<real>)
    returns (inside': bool, minDistSq': Option<real>)
    ensures inside' == (inside != Crosses(x, y, a, b))
    ensures minDistSq' == MinWith(minDistSq, SegDistSq(x, y, a, b))
  {
    inside' := inside;
    if Crosses(x, y, a, b) {
      inside' := !inside;
    }
    minDistSq' := MinWith(minDistSq, SegDistSq(x, y, a, b));
  }

  /** Scanning edge i of a ring adds its crossing and its distance. */
  lemma RingStep(x: real, y: real, ring: Ring, i: nat, a: Point, b: Point, acc: Option<real>)
    requires i < |ring| && a == ring[i] && b == ring[Prev(i, |ring|)]
    ensures RingCrossings(x, y, ring, i + 1) == RingCrossings(x, y, ring, i) + if Crosses(x, y, a, b) then 1 else 0
    ensures RingMinSq(x, y, ring, i + 1, acc) == MinWith(RingMinSq(x, y, ring, i, acc), SegDistSq(x, y, a, b))
  {
  }

  /** `pointToPolygonDist`: one `inside` flag toggled across every ring, and
      one running minimum of the squared edge distances. */
  method PointToPolygonDist(x: real, y: real, polygon: Polygon, sqrt: real -> real) returns (r: Extended)
    ensures r == SignedDist(x, y, polygon, sqrt)
  {
    var inside := false;
    var minDistSq: Option<real> := None;
    for k := 0 to |polygon|
      invariant inside == Odd(Crossings(x, y, polygon, k))
      invariant minDistSq == MinSq(x, y, polygon, k)
    {
      var ring := polygon[k];
      var len := |ring|;
      if len > 0 {
        var i, j := 0, len - 1;
        while i < len
          invariant 0 <= i <= len && j == (if i == 0 then len - 1 else i - 1)
          invariant inside == Odd(Crossings(x, y, polygon, k) + RingCrossings(x, y, ring, i))
          invariant minDistSq == RingMinSq(x, y, ring, i, MinSq(x, y, polygon, k))
        {
          var a, b := ring[i], ring[j];
          assert j == Prev(i, len);
          RingStep(x, y, ring, i, a, b, MinSq(x, y, polygon, k));
          OddNext(Crossings(x, y, polygon, k) + RingCrossings(x, y, ring, i));
          inside, minDistSq := ScanEdge(x, y, a, b, inside, minDistSq);
          j, i := i, i + 1;
        }
      }
    }
    if minDistSq == None {
      r := MinusInfinity;
    } else if minDistSq.value == 0.0 {
      r := Finite(0.0);
    } else {
      r := if inside then Finite(sqrt(minDistSq.value)) else Finite(-sqrt(minDistSq.value));
    }
  }

  /** The running minimum over a ring is bounded by `acc` and by every edge
      scanned, and is attained by `acc` or by one of those edges. */
  lemma {:induction false} RingMinSqIsLeast(x: real, y: real, polygon: Polygon, k: nat, n: nat, acc: Option<real>)
    requires k < |polygon| && n <= |polygon[k]|
    ensures var m := RingMinSq(x, y, polygon[k], n, acc);
      (m.Some? <==> acc.Some? || n > 0) &&
      (m.Some? ==>
        (acc.Some? ==> m.value <= acc.value) &&
        (forall i :: 0 <= i < n ==> m.value <= EdgeDistSq(x, y, polygon, k, i)) &&
        ((acc.Some? && m.value == acc.value) || exists i :: 0 <= i < n && m.value == EdgeDistSq(x, y, polygon, k, i)))
  {
    if n > 0 {
      RingMinSqIsLeast(x, y, polygon, k, n - 1, acc);
      var m := RingMinSq(x, y, polygon[k], n, acc);
      var prev := RingMinSq(x, y, polygon[k], n - 1, acc);
      assert m == MinWith(prev, EdgeDistSq(x, y, polygon, k, n - 1));
      if m != Some(EdgeDistSq(x, y, polygon, k, n - 1)) {
        assert m == prev;
      }
    }
  }

  /** The minimum over the first k rings is present exactly when one of them
      has an edge, is at most every edge's squared distance, and equals one. */
  lemma {:induction false} MinSqIsLeast(x: real, y: real, polygon: Polygon, k: nat)
    requires k <= |polygon|
    ensures var m := MinSq(x, y, polygon, k);
      (m.Some? <==> HasEdgeBelow(polygon, k)) &&
      (m.Some? ==>
        (forall j, i :: 0 <= j < k && 0 <= i < |polygon[j]| ==> m.value <= EdgeDistSq(x, y, polygon, j, i)) &&
        (exists j, i :: 0 <= j < k && 0 <= i < |polygon[j]| && m.value == EdgeDistSq(x, y, polygon, j, i)))
  {
    if k > 0 {
      MinSqIsLeast(x, y, polygon, k - 1);
      var acc := MinSq(x, y, polygon, k - 1);
      RingMinSqIsLeast(x, y, polygon, k - 1, |polygon[k - 1]|, acc);
      var m := MinSq(x, y, polygon, k);
      assert HasEdgeBelow(polygon, k) <==> HasEdgeBelow(polygon, k - 1) || |polygon[k - 1]| > 0;
      if m.Some? {
        forall j, i | 0 <= j < k && 0 <= i < |polygon[j]|
          ensures m.value <= EdgeDistSq(x, y, polygon, j, i)
        {
          if j < k - 1 {
            assert acc.Some?;
          }
        }
        if acc.Some? && m.value == acc.value {
          var j, i :| 0 <= j < k - 1 && 0 <= i < |polygon[j]| && acc.value == EdgeDistSq(x, y, polygon, j, i);
        } else {
          var i :| 0 <= i < |polygon[k - 1]| && m.value == EdgeDistSq(x, y, polygon, k - 1, i);
        }
      }
    }
  }

  /** The signed distance is exactly 0 if and only if some edge of some ring
      passes through the point. */
  lemma SignedDistZero(x: real, y: real, polygon: Polygon, sqrt: real -> real)
    requires RootLike(sqrt)
    ensures SignedDist(x, y, polygon, sqrt) == Finite(0.0) <==>
      exists k, i :: 0 <= k < |polygon| && 0 <= i < |polygon[k]| && EdgeDistSq(x, y, polygon, k, i) == 0.0
  {
    MinSqIsLeast(x, y, polygon, |polygon|);
    var m := MinSq(x, y, polygon, |polygon|);
    if exists k, i :: 0 <= k < |polygon| && 0 <= i < |polygon[k]| && EdgeDistSq(x, y, polygon, k, i) == 0.0 {
      var k, i :| 0 <= k < |polygon| && 0 <= i < |polygon[k]| && EdgeDistSq(x, y, polygon, k, i) == 0.0;
      assert HasEdgeBelow(polygon, |polygon|);
      var j, l :| 0 <= j < |polygon| && 0 <= l < |polygon[j]| && m.value == EdgeDistSq(x, y, polygon, j, l);
      assert m.value <= 0.0 <= m.value;
    }
    if SignedDist(x, y, polygon, sqrt) == Finite(0.0) {
      var j, l :| 0 <= j < |polygon| && 0 <= l < |polygon[j]| && m.value == EdgeDistSq(x, y, polygon, j, l);
    }
  }

  /** Off the boundary, the magnitude is the root of the least squared edge
      distance, and the sign is positive exactly when the crossings of all
      rings together are odd. */
  lemma SignedDistSign(x: real, y: real, polygon: Polygon, sqrt: real -> real)
    requires RootLike(sqrt)
    requires HasEdge(polygon)
    ensures var d := SignedDist(x, y, polygon, sqrt);
      var m := MinSq(x, y, polygon, |polygon|);
      m.Some? && d.Finite? &&
      (m.value != 0.0 ==> (d.value == sqrt(m.value) || d.value == -sqrt(m.value))) &&
      (0.0 < d.value <==> m.value != 0.0 && Odd(Crossings(x, y, polygon, |polygon|))) &&
      (d.value < 0.0 <==> m.value != 0.0 && !Odd(Crossings(x, y, polygon, |polygon|)))
  {
    MinSqIsLeast(x, y, polygon, |polygon|);
    var m := MinSq(x, y, polygon, |polygon|);
    var j, i :| 0 <= j < |polygon| && 0 <= i < |polygon[j]| && m.value == EdgeDistSq(x, y, polygon, j, i);
    assert 0.0 <= m.value;
  }
}
