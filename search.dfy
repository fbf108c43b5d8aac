/**
 * The branch-and-bound search of `polylabel` on one ring: the bounding box of
 * the ring, the degenerate answer, the seeding grid, and the main loop that
 * pops the most promising cell, keeps the best cell so far, prunes, and
 * splits.
 */
module Search {
  import opened Geometry
  import opened Cells
  import PriorityQueue

  /** What `polylabel` returns: `null`, the two-element array `[minX, minY]`
      (whose `distance` property is 0 and whose index 2 is absent) of a
      degenerate box, or `[x, y, d]`. */
  datatype Label = Null | Corner(x: real, y: real) | Pole(x: real, y: real, d: real)

  /** The bounding box `minX, minY, maxX, maxY`. */
  datatype Box = Box(minX: real, minY: real, maxX: real, maxY: real)

  /** The box after the first n points: the first point sets every bound, a
      later one replaces a bound it lies strictly beyond. */
  function BoxAfter(ring: Ring, n: nat): (b: Box)
    requires 1 <= n <= |ring|
    ensures b.minX <= b.maxX && b.minY <= b.maxY
  {
    var p := ring[n - 1];
    if n == 1 then Box(p.x, p.y, p.x, p.y)
    else
      var b := BoxAfter(ring, n - 1);
      Box(if p.x < b.minX then p.x else b.minX,
          if p.y < b.minY then p.y else b.minY,
          if p.x > b.maxX then p.x else b.maxX,
          if p.y > b.maxY then p.y else b.maxY)
  }

  /** The bounding box of the whole ring: it holds every point. */
  function BBox(ring: Ring): (b: Box)
    requires |ring| >= 1
    ensures forall i :: 0 <= i < |ring| ==> b.minX <= ring[i].x <= b.maxX && b.minY <= ring[i].y <= b.maxY
  {
    BoxAfterIsTight(ring, |ring|);
    BoxAfter(ring, |ring|)
  }

  /** Every point of the first n lies in the box, and each bound is attained by
      one of them. */
  lemma {:induction false} BoxAfterIsTight(ring: Ring, n: nat)
    requires 1 <= n <= |ring|
    ensures var b := BoxAfter(ring, n);
      (forall i :: 0 <= i < n ==> b.minX <= ring[i].x <= b.maxX && b.minY <= ring[i].y <= b.maxY) &&
      (exists i :: 0 <= i < n && ring[i].x == b.minX) &&
      (exists i :: 0 <= i < n && ring[i].y == b.minY) &&
      (exists i :: 0 <= i < n && ring[i].x == b.maxX) &&
      (exists i :: 0 <= i < n && ring[i].y == b.maxY)
  {
    if n == 1 {
      assert ring[0].x == BoxAfter(ring, n).minX;
    } else {
      BoxAfterIsTight(ring, n - 1);
      var b := BoxAfter(ring, n - 1);
      var b' := BoxAfter(ring, n);
      var p := ring[n - 1];
      if b'.minX != p.x {
        var i :| 0 <= i < n - 1 && ring[i].x == b.minX;
      }
      if b'.minY != p.y {
        var i :| 0 <= i < n - 1 && ring[i].y == b.minY;
      }
      if b'.maxX != p.x {
        var i :| 0 <= i < n - 1 && ring[i].x == b.maxX;
      }
      if b'.maxY != p.y {
        var i :| 0 <= i < n - 1 && ring[i].y == b.maxY;
      }
    }
  }

  /** The bounding box of the ring is the smallest box holding all its points. */
  lemma BBoxIsTight(ring: Ring)
    requires |ring| >= 1
    ensures var b := BBox(ring);
      (forall i :: 0 <= i < |ring| ==> b.minX <= ring[i].x <= b.maxX && b.minY <= ring[i].y <= b.maxY) &&
      (exists i :: 0 <= i < |ring| && ring[i].x == b.minX) &&
      (exists i :: 0 <= i < |ring| && ring[i].y == b.minY) &&
      (exists i :: 0 <= i < |ring| && ring[i].x == b.maxX) &&
      (exists i :: 0 <= i < |ring| && ring[i].y == b.maxY)
  {
    BoxAfterIsTight(ring, |ring|);
  }

  /** The bounding-box loop over the outer ring; before the first point the
      bounds are undefined, and the `!i` test overwrites them. */
  method BoundingBox(ring: Ring) returns (b: Box)
    requires |ring| >= 1
    ensures b == BBox(ring)
  {
    var minX, minY, maxX, maxY := 0.0, 0.0, 0.0, 0.0;
    for i := 0 to |ring|
      invariant i >= 1 ==> Box(minX, minY, maxX, maxY) == BoxAfter(ring, i)
    {
      var p := ring[i];
      if i == 0 || p.x < minX {
        minX := p.x;
      }
      if i == 0 || p.y < minY {
        minY := p.y;
      }
      if i == 0 || p.x > maxX {
        maxX := p.x;
      }
      if i == 0 || p.y > maxY {
        maxY := p.y;
      }
    }
    b := Box(minX, minY, maxX, maxY);
  }

  function Min(a: real, b: real): real {
    if a < b then a else b
  }

  /** `Math.min(width, height)` of the box. */
  function CellSize(b: Box): real {
    Min(b.maxX - b.minX, b.maxY - b.minY)
  }

  /** The cell of size 0 at the centre of the box. */
  function BoxCentreCell(b: Box, dist: (real, real) -> real): Cell
  {
    CellAt(b.minX + (b.maxX - b.minX) / 2.0, b.minY + (b.maxY - b.minY) / 2.0, 0.0, dist)
  }

  /** The cell size and the centre cell of a box, from its width, height
      and centre. */
  lemma BoxCentre(b: Box, width: real, height: real, cx: real, cy: real, dist: (real, real) -> real)
    requires width == b.maxX - b.minX && height == b.maxY - b.minY
    requires cx == b.minX + width / 2.0 && cy == b.minY + height / 2.0
    ensures CellSize(b) == Min(width, height)
    ensures BoxCentreCell(b, dist) == CellAt(cx, cy, 0.0, dist)
  {
  }

  /** The four cells a cell splits into: half its size, centred on the centres
      of its quadrants. */
  function Children(c: Cell, dist: (real, real) -> real): (ks: seq<Cell>)
    ensures |ks| == 4
    ensures forall i :: 0 <= i < 4 ==> ks[i].h == c.h / 2.0 && Built(ks[i], dist)
  {
    var h := c.h / 2.0;
    [CellAt(c.x - h, c.y - h, h, dist), CellAt(c.x + h, c.y - h, h, dist),
     CellAt(c.x - h, c.y + h, h, dist), CellAt(c.x + h, c.y + h, h, dist)]
  }

  /** A termination measure for the main loop. A cell whose slack
      `h * SQRT2` is r times the precision can be split about log2(r) times
      before its children are pruned; its levels count the cells of the
      subtree it can still spawn. */
  ghost function Levels(slack: real, precision: real): (w: nat)
    ensures 1 <= w
    decreases if precision <= 0.0 then 0.0 else 2.0 * slack / precision
  {
    if precision <= 0.0 || slack <= precision then 1
    else
      HalvedQuotient(slack, precision);
      1 + 4 * Levels(slack / 2.0, precision)
  }

  lemma HalvedQuotient(slack: real, precision: real)
    requires 0.0 < precision < slack
    ensures 2.0 * (slack / 2.0) / precision <= 2.0 * slack / precision - 1.0
    ensures 0.0 <= 2.0 * slack / precision
  {
    var q := slack / precision;
    assert q * precision == slack;
    assert 2.0 * (slack / 2.0) / precision == q;
    assert 2.0 * slack / precision == 2.0 * q;
    assert 1.0 < q;
  }

  ghost function Weight(c: Cell, precision: real): nat {
    Levels(c.h * SQRT2, precision)
  }

  ghost function WeightAt(precision: real): Cell -> nat {
    c => Weight(c, precision)
  }

  ghost function Pick(m: multiset<Cell>): Cell
    requires |m| > 0
  {
    var c :| c in m; c
  }

  /** The sum of the weights `w` of the cells of a multiset. */
  ghost function SumOf(m: multiset<Cell>, w: Cell -> nat): nat
    decreases |m|
  {
    if |m| == 0 then 0
    else w(Pick(m)) + SumOf(m - multiset{Pick(m)}, w)
  }

  /** Two different cells of a multiset can be taken out in either order. */
  lemma RemoveTwo(m: multiset<Cell>, c: Cell, d: Cell)
    requires c in m && d in m && c != d
    ensures c in m - multiset{d} && d in m - multiset{c}
    ensures m - multiset{d} - multiset{c} == m - multiset{c} - multiset{d}
  {
  }

  /** Taking any one cell out of a multiset removes exactly its weight. */
  lemma {:induction false} SumOfRemove(m: multiset<Cell>, c: Cell, w: Cell -> nat)
    requires c in m
    ensures SumOf(m, w) == w(c) + SumOf(m - multiset{c}, w)
    decreases |m|
  {
    var d := Pick(m);
    var md, mc := m - multiset{d}, m - multiset{c};
    assert SumOf(m, w) == w(d) + SumOf(md, w);
    if d != c {
      RemoveTwo(m, c, d);
      SumOfRemove(md, c, w);
      SumOfRemove(mc, d, w);
    }
  }

  /** The total weight of the queued cells. */
  ghost function Total(m: multiset<Cell>, precision: real): nat {
    SumOf(m, WeightAt(precision))
  }

  /** Taking any one cell out of the queue removes exactly its weight. */
  lemma TotalRemove(m: multiset<Cell>, c: Cell, precision: real)
    requires c in m
    ensures Total(m, precision) == Weight(c, precision) + Total(m - multiset{c}, precision)
  {
    SumOfRemove(m, c, WeightAt(precision));
  }

  /** Adding a cell adds its weight. */
  lemma TotalAdd(m: multiset<Cell>, c: Cell, precision: real)
    ensures Total(m + multiset{c}, precision) == Total(m, precision) + Weight(c, precision)
  {
    SumOfRemove(m + multiset{c}, c, WeightAt(precision));
    assert m + multiset{c} - multiset{c} == m;
  }

  lemma ZeroFactor(a: real, b: real)
    requires a * b == 0.0 && 0.0 < b
    ensures a == 0.0
  {
  }

  /** One step of the seeding loops lowers the number of steps left by one. */
  lemma StepQuotient(x: real, x': real, bound: real, step: real)
    requires 0.0 < step && x' == x + step
    ensures (bound - x') / step == (bound - x) / step - 1.0
    ensures x < bound ==> 0.0 < (bound - x) / step
  {
    var q := (bound - x) / step;
    var r := (bound - x') / step;
    assert q * step == bound - x;
    assert r * step == bound - x';
    assert (r - (q - 1.0)) * step == 0.0;
    ZeroFactor(r - (q - 1.0), step);
    if x < bound {
      assert 0.0 < q * step;
    }
  }

  /** A ring with a point is a polygon with an edge. */
  lemma RingHasEdge(ring: Ring)
    requires |ring| >= 1
    ensures HasEdge([ring])
  {
    assert |[ring][0]| >= 1;
  }

  /** What the search on one ring promises: the lower corner of a degenerate
      box, or else a point whose distance is its signed distance to the ring
      and is at least that of the centroid cell and of the box-centre cell. */
  ghost predicate RingLabel(ring: Ring, sqrt: real -> real, dist: (real, real) -> real, r: Label)
    requires |ring| >= 1
  {
    var b := BBox(ring);
    var polygon := [ring];
    if CellSize(b) == 0.0 then r == Corner(b.minX, b.minY)
    else
      r.Pole? && Finite(r.d) == SignedDist(r.x, r.y, polygon, sqrt) &&
      CentroidCell(polygon, dist).d <= r.d && BoxCentreCell(b, dist).d <= r.d
  }

  /** Adding four cells to a multiset at once adds them one by one. */
  lemma AddFour(m: multiset<Cell>, ks: seq<Cell>)
    requires |ks| == 4
    ensures m + multiset(ks) == m + multiset{ks[0]} + multiset{ks[1]} + multiset{ks[2]} + multiset{ks[3]}
  {
    assert ks == [ks[0]] + [ks[1]] + [ks[2]] + [ks[3]];
  }

  /** Adding four cells adds their weights. */
  lemma TotalAddFour(m: multiset<Cell>, c1: Cell, c2: Cell, c3: Cell, c4: Cell, precision: real)
    ensures Total(m + multiset{c1} + multiset{c2} + multiset{c3} + multiset{c4}, precision)
         == Total(m, precision) + Weight(c1, precision) + Weight(c2, precision) + Weight(c3, precision) + Weight(c4, precision)
  {
    TotalAdd(m, c1, precision);
    TotalAdd(m + multiset{c1}, c2, precision);
    TotalAdd(m + multiset{c1} + multiset{c2}, c3, precision);
    TotalAdd(m + multiset{c1} + multiset{c2} + multiset{c3}, c4, precision);
  }

  /** Membership after one element leaves a sequence, as a multiset. */
  lemma Removed(a: seq<Cell>, b: seq<Cell>, x: Cell)
    requires multiset(b) == multiset(a) - multiset{x}
    ensures forall c :: c in b ==> c in a
    ensures forall c :: c in a ==> c == x || c in b
  {
    forall c | c in b
      ensures c in a
    {
      assert c in multiset(b);
    }
    forall c | c in a && c != x
      ensures c in b
    {
      assert c in multiset(a);
      assert c in multiset(b);
    }
  }

  /** Membership after elements join a sequence, as a multiset. */
  lemma Added(a: seq<Cell>, b: seq<Cell>, ks: seq<Cell>)
    requires multiset(b) == multiset(a) + multiset(ks)
    ensures forall c :: c in b ==> c in a || c in ks
    ensures forall c :: c in a ==> c in b
    ensures forall c :: c in ks ==> c in b
  {
    forall c | c in b
      ensures c in a || c in ks
    {
      assert c in multiset(b);
    }
    forall c | c in a
      ensures c in b
    {
      assert c in multiset(a);
      assert c in multiset(b);
    }
    forall c | c in ks
      ensures c in b
    {
      assert c in multiset(ks);
      assert c in multiset(b);
    }
  }

  /** `queue.push(new Cell(x, y, h, polygon))`. */
  method PushCell(q: PriorityQueue.TinyQueue<Cell>, x: real, y: real, h: real, polygon: Polygon, sqrt: real -> real,
                  ghost dist: (real, real) -> real)
    returns (c: Cell)
    requires q.Valid() && q.compare == CellCompare && Measures(dist, polygon, sqrt)
    modifies q
    ensures c == CellAt(x, y, h, dist)
    ensures q.Valid() && q.compare == CellCompare
    ensures multiset(q.data) == old(multiset(q.data)) + multiset{CellAt(x, y, h, dist)}
  {
    c := NewCell(x, y, h, polygon, sqrt, dist);
    q.Push(c);
  }

  /** The children of a cell, one by one, for the coordinates of its
      quadrant centres. */
  lemma ChildrenAre(cell: Cell, h: real, x0: real, x1: real, y0: real, y1: real, dist: (real, real) -> real)
    requires h == cell.h / 2.0
    requires x0 == cell.x - h && x1 == cell.x + h && y0 == cell.y - h && y1 == cell.y + h
    ensures var ks := Children(cell, dist);
      ks[0] == CellAt(x0, y0, h, dist) && ks[1] == CellAt(x1, y0, h, dist) &&
      ks[2] == CellAt(x0, y1, h, dist) && ks[3] == CellAt(x1, y1, h, dist)
  {
  }

  /** A multiset that gained the four children of a cell, one by one,
      gained the children of the cell. */
  lemma PushedChildren(m: multiset<Cell>, m': multiset<Cell>, cell: Cell, h: real,
                       x0: real, x1: real, y0: real, y1: real, dist: (real, real) -> real)
    requires h == cell.h / 2.0
    requires x0 == cell.x - h && x1 == cell.x + h && y0 == cell.y - h && y1 == cell.y + h
    requires m' == m + multiset{CellAt(x0, y0, h, dist)} + multiset{CellAt(x1, y0, h, dist)}
                    + multiset{CellAt(x0, y1, h, dist)} + multiset{CellAt(x1, y1, h, dist)}
    ensures m' == m + multiset(Children(cell, dist))
  {
    ChildrenAre(cell, h, x0, x1, y0, y1, dist);
    AddFour(m, Children(cell, dist));
  }

  /** One branch of the main loop: the four children of the cell, pushed in
      the order of the source. */
  method PushChildren(q: PriorityQueue.TinyQueue<Cell>, cell: Cell, polygon: Polygon, sqrt: real -> real,
                      ghost dist: (real, real) -> real)
    requires q.Valid() && q.compare == CellCompare && Measures(dist, polygon, sqrt)
    modifies q
    ensures q.Valid() && q.compare == CellCompare
    ensures multiset(q.data) == old(multiset(q.data)) + multiset(Children(cell, dist))
  {
    ghost var m := multiset(q.data);
    var h := cell.h / 2.0;
    var x0, x1, y0, y1 := cell.x - h, cell.x + h, cell.y - h, cell.y + h;
    var c1 := PushCell(q, x0, y0, h, polygon, sqrt, dist);
    var c2 := PushCell(q, x1, y0, h, polygon, sqrt, dist);
    var c3 := PushCell(q, x0, y1, h, polygon, sqrt, dist);
    var c4 := PushCell(q, x1, y1, h, polygon, sqrt, dist);
    PushedChildren(m, multiset(q.data), cell, h, x0, x1, y0, y1, dist);
  }

  /** A cell whose slack exceeds the precision weighs one more than four
      cells of half its size. */
  lemma SplitWeight(c: Cell, k: Cell, precision: real)
    requires 0.0 < precision < c.h * SQRT2 && k.h == c.h / 2.0
    ensures Weight(c, precision) == 1 + 4 * Weight(k, precision)
  {
    assert c.h * SQRT2 / 2.0 == k.h * SQRT2;
  }

  /** Pushing the children of a cell whose slack exceeds the precision adds
      one less than the weight of the cell. */
  lemma TotalAddChildren(m: multiset<Cell>, cell: Cell, dist: (real, real) -> real, precision: real)
    requires 0.0 < precision < cell.h * SQRT2
    ensures Total(m + multiset(Children(cell, dist)), precision)
         == Total(m, precision) + Weight(cell, precision) - 1
  {
    var ks := Children(cell, dist);
    AddFour(m, ks);
    TotalAddFour(m, ks[0], ks[1], ks[2], ks[3], precision);
    SplitWeight(cell, ks[0], precision);
    SplitWeight(cell, ks[1], precision);
    SplitWeight(cell, ks[2], precision);
    SplitWeight(cell, ks[3], precision);
  }

  /** `if (cell.d > bestCell.d) bestCell = cell`, on distances. */
  function Raised(best: real, d: real): (r: real)
    ensures best <= r && d <= r
    ensures r == best || r == d
  {
    if d > best then d else best
  }

  /** The best distance before pop `i`: the first guess's before the first
      pop, and `bests[i - 1]` after it. */
  function Before(first: real, bests: seq<real>, i: nat): real
    requires i <= |bests|
  {
    if i == 0 then first else bests[i - 1]
  }

  /** `bests[i]` is the best distance once the popped cell `probed[i]` has
      been compared with the best cell, starting from the distance `first`. */
  ghost predicate Running(first: real, probed: seq<Cell>, bests: seq<real>) {
    |bests| == |probed| &&
    forall i :: 0 <= i < |probed| ==> bests[i] == Raised(Before(first, bests, i), probed[i].d)
  }

  /** A cell is split when its bound beats the best distance of the moment
      by more than the precision. */
  predicate Unpruned(c: Cell, best: real, precision: real) {
    c.max - best > precision
  }

  /** The certificate of the main loop, given the best distance `bests[i]`
      in force when `probed[i]` was popped and the cells still `pending`:
      every probed cell was built by the constructor, and each one that was
      not pruned had its children probed or still pending. */
  ghost predicate Certified(probed: seq<Cell>, bests: seq<real>, pending: seq<Cell>, precision: real,
                            dist: (real, real) -> real)
  {
    |bests| == |probed| &&
    forall i :: 0 <= i < |probed| ==>
      Built(probed[i], dist) &&
      (Unpruned(probed[i], bests[i], precision) ==>
         forall k :: k in Children(probed[i], dist) ==> k in probed || k in pending)
  }

  /** Cell `c` is a child of one of the first n probed cells that was not
      pruned when it was popped. */
  ghost predicate Spawned(c: Cell, probed: seq<Cell>, bests: seq<real>, n: nat, precision: real,
                          dist: (real, real) -> real)
  {
    exists j :: 0 <= j < n && j < |probed| && j < |bests| &&
      Unpruned(probed[j], bests[j], precision) && c in Children(probed[j], dist)
  }

  /** Where the probed cells come from: each one was queued at the start or
      is a child of an earlier probed cell that was not pruned. Children are
      pushed only for unpruned cells. */
  ghost predicate Traced(start: seq<Cell>, probed: seq<Cell>, bests: seq<real>, precision: real,
                         dist: (real, real) -> real)
  {
    forall i :: 0 <= i < |probed| ==> probed[i] in start || Spawned(probed[i], probed, bests, i, precision, dist)
  }

  /** Spawning does not depend on later pops. */
  lemma SpawnedExtend(c: Cell, probed: seq<Cell>, bests: seq<real>, n: nat, cell: Cell, b: real,
                      precision: real, dist: (real, real) -> real)
    requires n <= |probed| && Spawned(c, probed, bests, n, precision, dist)
    ensures Spawned(c, probed + [cell], bests + [b], n, precision, dist)
  {
    var j :| 0 <= j < n && j < |probed| && j < |bests| &&
      Unpruned(probed[j], bests[j], precision) && c in Children(probed[j], dist);
    assert (probed + [cell])[j] == probed[j] && (bests + [b])[j] == bests[j];
  }

  /** The trace of the probed cells holds for any larger set of start cells. */
  lemma TracedWiden(start: seq<Cell>, start': seq<Cell>, probed: seq<Cell>, bests: seq<real>, precision: real,
                    dist: (real, real) -> real)
    requires Traced(start, probed, bests, precision, dist)
    requires forall c :: c in start ==> c in start'
    ensures Traced(start', probed, bests, precision, dist)
  {
  }

  /** One pop extends the running best distances. */
  lemma RunningStep(first: real, probed: seq<Cell>, bests: seq<real>, cell: Cell, b: real)
    requires Running(first, probed, bests) && b == Raised(Before(first, bests, |bests|), cell.d)
    ensures Running(first, probed + [cell], bests + [b])
    ensures Before(first, bests + [b], |bests| + 1) == b
  {
    var probed', bests' := probed + [cell], bests + [b];
    forall i | 0 <= i < |probed'|
      ensures bests'[i] == Raised(Before(first, bests', i), probed'[i].d)
    {
      if i < |probed| {
        assert bests'[i] == bests[i] && probed'[i] == probed[i];
        assert Before(first, bests', i) == Before(first, bests, i);
      }
    }
  }

  /** One pop keeps the trace of the probed cells, given where the popped
      cell came from. */
  lemma TracedStep(start: seq<Cell>, probed: seq<Cell>, bests: seq<real>, cell: Cell, b: real,
                   precision: real, dist: (real, real) -> real)
    requires |bests| == |probed| && Traced(start, probed, bests, precision, dist)
    requires cell in start || Spawned(cell, probed, bests, |probed|, precision, dist)
    ensures Traced(start, probed + [cell], bests + [b], precision, dist)
  {
    var probed', bests' := probed + [cell], bests + [b];
    forall i | 0 <= i < |probed'|
      ensures probed'[i] in start || Spawned(probed'[i], probed', bests', i, precision, dist)
    {
      if i < |probed| {
        assert probed'[i] == probed[i];
        if probed[i] !in start {
          SpawnedExtend(probed[i], probed, bests, i, cell, b, precision, dist);
        }
      } else if cell !in start {
        SpawnedExtend(cell, probed, bests, |probed|, cell, b, precision, dist);
      }
    }
  }

  /** One pop keeps the origin of the queued cells: every cell left behind
      was queued before, and the cells pushed are children of the popped
      cell, which was not pruned. */
  lemma QueuedStep(start: seq<Cell>, probed: seq<Cell>, bests: seq<real>, before: seq<Cell>, after: seq<Cell>,
                   cell: Cell, b: real, precision: real, dist: (real, real) -> real)
    requires |bests| == |probed|
    requires forall c :: c in before ==> c in start || Spawned(c, probed, bests, |probed|, precision, dist)
    requires forall c :: c in after ==> c in before || (Unpruned(cell, b, precision) && c in Children(cell, dist))
    ensures forall c :: c in after ==>
      c in start || Spawned(c, probed + [cell], bests + [b], |probed| + 1, precision, dist)
  {
    var probed', bests' := probed + [cell], bests + [b];
    forall c | c in after && c !in start
      ensures Spawned(c, probed', bests', |probed| + 1, precision, dist)
    {
      if c in before {
        SpawnedExtend(c, probed, bests, |probed|, cell, b, precision, dist);
        var j :| 0 <= j < |probed| && j < |probed'| && j < |bests'| &&
          Unpruned(probed'[j], bests'[j], precision) && c in Children(probed'[j], dist);
      } else {
        assert probed'[|probed|] == cell && bests'[|probed|] == b;
      }
    }
  }

  /** One round of the main loop keeps the certificate: the popped cell
      joins the probed ones with the best distance of its round, every other
      pending cell, and every child pushed, is still pending. */
  lemma CertifiedStep(probed: seq<Cell>, bests: seq<real>, before: seq<Cell>, after: seq<Cell>, cell: Cell, b: real,
                      precision: real, dist: (real, real) -> real)
    requires Certified(probed, bests, before, precision, dist)
    requires Built(cell, dist)
    requires forall c :: c in before ==> c == cell || c in after
    requires Unpruned(cell, b, precision) ==> forall k :: k in Children(cell, dist) ==> k in after
    ensures Certified(probed + [cell], bests + [b], after, precision, dist)
  {
    var probed', bests' := probed + [cell], bests + [b];
    forall i | 0 <= i < |probed'|
      ensures Built(probed'[i], dist) &&
        (Unpruned(probed'[i], bests'[i], precision) ==>
           forall k :: k in Children(probed'[i], dist) ==> k in probed' || k in after)
    {
      if i < |probed| {
        assert probed'[i] == probed[i] && bests'[i] == bests[i];
        if Unpruned(probed[i], bests[i], precision) {
          forall k | k in Children(probed[i], dist)
            ensures k in probed' || k in after
          {
            assert k in probed || k in before;
          }
        }
      }
    }
  }

  /** The best cell after the cells `probed` were popped in turn, starting
      from `first`, where a popped cell replaces the best one only when its
      distance is strictly larger: `first` itself, or else the earliest
      probed cell whose distance beats `first` and every cell probed before
      it. */
  ghost predicate Chosen(first: Cell, probed: seq<Cell>, best: Cell) {
    best == first ||
    (first.d < best.d &&
     exists i :: 0 <= i < |probed| && probed[i] == best && forall j :: 0 <= j < i ==> probed[j].d < best.d)
  }

  /** A popped cell that does not beat the best one leaves it chosen. */
  lemma ChosenKeep(first: Cell, probed: seq<Cell>, best: Cell, cell: Cell)
    requires Chosen(first, probed, best) && cell.d <= best.d
    ensures Chosen(first, probed + [cell], best)
  {
    if best != first {
      var i :| 0 <= i < |probed| && probed[i] == best && forall j :: 0 <= j < i ==> probed[j].d < best.d;
      assert (probed + [cell])[i] == best;
    }
  }

  /** A popped cell that beats the best one, which is no worse than any cell
      probed before, becomes the chosen cell. */
  lemma ChosenNew(first: Cell, probed: seq<Cell>, best: Cell, cell: Cell)
    requires forall c :: c in probed ==> c.d <= best.d
    requires first.d <= best.d < cell.d
    ensures Chosen(first, probed + [cell], cell)
  {
    var probed' := probed + [cell];
    assert probed'[|probed|] == cell;
    forall j | 0 <= j < |probed|
      ensures probed'[j].d < cell.d
    {
      assert probed'[j] == probed[j] && probed[j] in probed;
    }
  }

  /** What holds of the best cell after each round, given the first guess
      `first` and the cells probed so far. */
  ghost predicate BestSoFar(first: Cell, best: Cell, probed: seq<Cell>, bests: seq<real>, dist: (real, real) -> real) {
    Built(best, dist) && first.d <= best.d &&
    (forall c :: c in probed ==> c.d <= best.d) &&
    Running(first.d, probed, bests) && best.d == Before(first.d, bests, |bests|) &&
    Chosen(first, probed, best)
  }

  /** What holds of the probed and pending cells after each round, given
      the cells queued at the `start`. */
  ghost predicate Covered(pending: seq<Cell>, start: seq<Cell>, probed: seq<Cell>, bests: seq<real>, precision: real,
                          dist: (real, real) -> real)
  {
    (forall c :: c in pending ==> Built(c, dist)) &&
    (forall c :: c in start ==> c in probed || c in pending) &&
    Certified(probed, bests, pending, precision, dist) &&
    Traced(start, probed, bests, precision, dist) &&
    (forall c :: c in pending ==> c in start || Spawned(c, probed, bests, |probed|, precision, dist))
  }

  /** What holds of the main loop after each round. */
  ghost predicate Progress(pending: seq<Cell>, start: seq<Cell>, first: Cell, best: Cell, probed: seq<Cell>,
                           bests: seq<real>, precision: real, dist: (real, real) -> real)
  {
    BestSoFar(first, best, probed, bests, dist) && Covered(pending, start, probed, bests, precision, dist)
  }

  /** A popped cell becomes the best one when its distance is strictly
      larger. */
  lemma BestStep(first: Cell, best: Cell, cell: Cell, best': Cell, probed: seq<Cell>, bests: seq<real>,
                 dist: (real, real) -> real)
    requires BestSoFar(first, best, probed, bests, dist) && Built(cell, dist)
    requires best' == (if cell.d > best.d then cell else best)
    ensures BestSoFar(first, best', probed + [cell], bests + [best'.d], dist)
  {
    if cell.d > best.d {
      ChosenNew(first, probed, best, cell);
    } else {
      ChosenKeep(first, probed, best, cell);
    }
    RunningStep(first.d, probed, bests, cell, best'.d);
  }

  /** A popped cell leaves the pending cells, and its children join them
      exactly when it is not pruned against the best distance `b`. */
  lemma CoveredStep(before: seq<Cell>, after: seq<Cell>, start: seq<Cell>, cell: Cell, b: real,
                    probed: seq<Cell>, bests: seq<real>, precision: real, dist: (real, real) -> real)
    requires Covered(before, start, probed, bests, precision, dist) && cell in before
    requires forall c :: c in before ==> c == cell || c in after
    requires forall c :: c in after ==> c in before || (Unpruned(cell, b, precision) && c in Children(cell, dist))
    requires Unpruned(cell, b, precision) ==> forall k :: k in Children(cell, dist) ==> k in after
    ensures Covered(after, start, probed + [cell], bests + [b], precision, dist)
  {
    TracedStep(start, probed, bests, cell, b, precision, dist);
    CertifiedStep(probed, bests, before, after, cell, b, precision, dist);
    QueuedStep(start, probed, bests, before, after, cell, b, precision, dist);
  }

  /** One round of the main loop: pop the cell with the largest bound among
      the pending ones, keep it if it beats the best cell, and split it
      exactly when its bound beats the best cell by more than the precision. */
  method RefineRound(q: PriorityQueue.TinyQueue<Cell>, first: Cell, best: Cell, precision: real, polygon: Polygon,
                     sqrt: real -> real, ghost dist: (real, real) -> real, ghost start: seq<Cell>,
                     ghost probed: seq<Cell>, ghost bests: seq<real>)
    returns (best': Cell, ghost probed': seq<Cell>, ghost bests': seq<real>)
    requires q.Valid() && q.compare == CellCompare && Measures(dist, polygon, sqrt) && 0.0 < precision
    requires q.length > 0 && Progress(q.data, start, first, best, probed, bests, precision, dist)
    modifies q
    ensures q.Valid() && q.compare == CellCompare
    ensures Progress(q.data, start, first, best', probed', bests', precision, dist)
    ensures |probed'| == |probed| + 1 && probed'[..|probed|] == probed
    ensures probed'[|probed|] in old(q.data) && forall c :: c in old(q.data) ==> c.max <= probed'[|probed|].max
    ensures Total(multiset(q.data), precision) < old(Total(multiset(q.data), precision))
  {
    ghost var before := q.data;
    var top := q.Pop();
    var cell := top.value;
    TotalRemove(multiset(before), cell, precision);
    Removed(before, q.data, cell);
    best' := best;
    if cell.d > best.d {
      best' := cell;
    }
    if cell.max - best'.d > precision {
      TotalAddChildren(multiset(q.data), cell, dist, precision);
      ghost var popped := q.data;
      PushChildren(q, cell, polygon, sqrt, dist);
      Added(popped, q.data, Children(cell, dist));
    }
    BestStep(first, best, cell, best', probed, bests, dist);
    CoveredStep(before, q.data, start, cell, best'.d, probed, bests, precision, dist);
    probed', bests' := probed + [cell], bests + [best'.d];
  }

  /** The main loop: rounds until the queue is empty. Every cell ever queued
      gets probed; every probed cell was queued at the start or is a child
      of a probed cell that was not pruned when it was popped; the probed
      cells carry the certificate with nothing left pending; and `bests`
      records the best distance after each pop. */
  method Refine(q: PriorityQueue.TinyQueue<Cell>, first: Cell, precision: real, polygon: Polygon, sqrt: real -> real,
                ghost dist: (real, real) -> real)
    returns (best: Cell, ghost probed: seq<Cell>, ghost bests: seq<real>)
    requires q.Valid() && q.compare == CellCompare && Measures(dist, polygon, sqrt) && 0.0 < precision
    requires Built(first, dist) && forall c :: c in q.data ==> Built(c, dist)
    modifies q
    ensures q.Valid() && q.length == 0
    ensures Built(best, dist) && first.d <= best.d
    ensures forall c :: c in old(q.data) ==> c in probed
    ensures forall c :: c in probed ==> c.d <= best.d
    ensures Running(first.d, probed, bests) && best.d == Before(first.d, bests, |bests|)
    ensures Certified(probed, bests, [], precision, dist)
    ensures Traced(old(q.data), probed, bests, precision, dist)
    ensures Chosen(first, probed, best)
  {
    best := first;
    probed, bests := [], [];
    ghost var start := q.data;
    while q.length > 0
      invariant q.Valid() && q.compare == CellCompare
      invariant Progress(q.data, start, first, best, probed, bests, precision, dist)
      decreases Total(multiset(q.data), precision)
    {
      best, probed, bests := RefineRound(q, first, best, precision, polygon, sqrt, dist, start, probed, bests);
    }
    assert q.data == [];
  }

  /** A cell of the initial grid: half side `cellSize / 2`, and its lower
      left corner in the box, short of its upper and right sides. */
  predicate Seeded(c: Cell, box: Box, cellSize: real) {
    c.h == cellSize / 2.0 &&
    box.minX <= c.x - c.h < box.maxX && box.minY <= c.y - c.h < box.maxY
  }

  /** The cells the inner seeding loop pushes for the column whose left side
      is at x, from the row whose lower side is at y on, in push order. */
  function Column(x: real, y: real, box: Box, cellSize: real, dist: (real, real) -> real): (cs: seq<Cell>)
    requires 0.0 < cellSize
    ensures y < box.maxY <==> |cs| > 0
    decreases (box.maxY - y) / cellSize
  {
    if y < box.maxY then
      StepQuotient(y, y + cellSize, box.maxY, cellSize);
      var h := cellSize / 2.0;
      [CellAt(x + h, y + h, h, dist)] + Column(x, y + cellSize, box, cellSize, dist)
    else []
  }

  /** Every cell of the column is a built cell of half side `cellSize / 2`
      whose lower left corner is at x and between row y and the top of the
      box. */
  lemma {:induction false} ColumnCells(x: real, y: real, box: Box, cellSize: real, dist: (real, real) -> real)
    requires 0.0 < cellSize
    ensures forall c :: c in Column(x, y, box, cellSize, dist) ==>
      Built(c, dist) && c.h == cellSize / 2.0 && c.x - c.h == x && y <= c.y - c.h < box.maxY
    decreases (box.maxY - y) / cellSize
  {
    if y < box.maxY {
      StepQuotient(y, y + cellSize, box.maxY, cellSize);
      ColumnCells(x, y + cellSize, box, cellSize, dist);
      var h := cellSize / 2.0;
      assert Column(x, y, box, cellSize, dist) == [CellAt(x + h, y + h, h, dist)] + Column(x, y + cellSize, box, cellSize, dist);
    }
  }

  /** The cells both seeding loops push from the column at x on, in push
      order. */
  function GridFrom(x: real, box: Box, cellSize: real, dist: (real, real) -> real): (cs: seq<Cell>)
    requires 0.0 < cellSize
    ensures x < box.maxX && box.minY < box.maxY ==> |cs| > 0
    decreases (box.maxX - x) / cellSize
  {
    if x < box.maxX then
      StepQuotient(x, x + cellSize, box.maxX, cellSize);
      Column(x, box.minY, box, cellSize, dist) + GridFrom(x + cellSize, box, cellSize, dist)
    else []
  }

  /** Every cell pushed from the column at x on is a built cell of half side
      `cellSize / 2` whose lower left corner lies in the box, right of x. */
  lemma {:induction false} GridFromCells(x: real, box: Box, cellSize: real, dist: (real, real) -> real)
    requires 0.0 < cellSize
    ensures forall c :: c in GridFrom(x, box, cellSize, dist) ==>
      Built(c, dist) && c.h == cellSize / 2.0 && x <= c.x - c.h < box.maxX && box.minY <= c.y - c.h < box.maxY
    decreases (box.maxX - x) / cellSize
  {
    if x < box.maxX {
      StepQuotient(x, x + cellSize, box.maxX, cellSize);
      ColumnCells(x, box.minY, box, cellSize, dist);
      GridFromCells(x + cellSize, box, cellSize, dist);
    }
  }

  /** The initial cells `polylabel` queues for a box, in push order: every
      one is a built cell of the grid, and a box of positive width and height
      gets at least the cell at its lower left corner. */
  function Grid(box: Box, cellSize: real, dist: (real, real) -> real): (cs: seq<Cell>)
    requires 0.0 < cellSize
    ensures forall c :: c in cs ==> Built(c, dist) && Seeded(c, box, cellSize)
    ensures box.minX < box.maxX && box.minY < box.maxY ==>
      |cs| > 0 && cs[0] == CellAt(box.minX + cellSize / 2.0, box.minY + cellSize / 2.0, cellSize / 2.0, dist)
  {
    GridFromCells(box.minX, box, cellSize, dist);
    GridFrom(box.minX, box, cellSize, dist)
  }

  /** Every point from row y up to the top of the box lies in a cell of the
      column at x: the last row reaches the top. */
  lemma {:induction false} ColumnCovers(x: real, y: real, box: Box, cellSize: real, dist: (real, real) -> real, py: real)
    requires 0.0 < cellSize && y < box.maxY && y <= py <= box.maxY
    ensures exists c :: c in Column(x, y, box, cellSize, dist) && c.y - c.h <= py <= c.y + c.h
    decreases (box.maxY - y) / cellSize
  {
    var h := cellSize / 2.0;
    var c := CellAt(x + h, y + h, h, dist);
    assert Column(x, y, box, cellSize, dist) == [c] + Column(x, y + cellSize, box, cellSize, dist);
    if py <= y + cellSize {
      assert c in Column(x, y, box, cellSize, dist);
    } else {
      StepQuotient(y, y + cellSize, box.maxY, cellSize);
      ColumnCovers(x, y + cellSize, box, cellSize, dist, py);
    }
  }

  /** Every point of the box right of x lies in a cell pushed from the
      column at x on: the last column reaches the right side. */
  lemma {:induction false} GridFromCovers(x: real, box: Box, cellSize: real, dist: (real, real) -> real, px: real, py: real)
    requires 0.0 < cellSize && x < box.maxX && box.minY < box.maxY
    requires x <= px <= box.maxX && box.minY <= py <= box.maxY
    ensures exists c ::
      c in GridFrom(x, box, cellSize, dist) && c.x - c.h <= px <= c.x + c.h && c.y - c.h <= py <= c.y + c.h
    decreases (box.maxX - x) / cellSize
  {
    var col := Column(x, box.minY, box, cellSize, dist);
    assert GridFrom(x, box, cellSize, dist) == col + GridFrom(x + cellSize, box, cellSize, dist);
    if px <= x + cellSize {
      ColumnCovers(x, box.minY, box, cellSize, dist, py);
      var c :| c in col && c.y - c.h <= py <= c.y + c.h;
      ColumnCells(x, box.minY, box, cellSize, dist);
      assert c.x - c.h == x && c.h == cellSize / 2.0;
      assert c in GridFrom(x, box, cellSize, dist);
    } else {
      StepQuotient(x, x + cellSize, box.maxX, cellSize);
      GridFromCovers(x + cellSize, box, cellSize, dist, px, py);
    }
  }

  /** The initial cells cover the box: every point of the closed box, its
      upper and right sides included, lies in one of them. */
  lemma GridCovers(box: Box, cellSize: real, dist: (real, real) -> real, px: real, py: real)
    requires 0.0 < cellSize && box.minX < box.maxX && box.minY < box.maxY
    requires box.minX <= px <= box.maxX && box.minY <= py <= box.maxY
    ensures exists c ::
      c in Grid(box, cellSize, dist) && c.x - c.h <= px <= c.x + c.h && c.y - c.h <= py <= c.y + c.h
  {
    GridFromCovers(box.minX, box, cellSize, dist, px, py);
  }

  /** The grid from the column at x on is that column and the grid from the
      next column on. */
  lemma GridFromStep(x: real, box: Box, cellSize: real, dist: (real, real) -> real)
    requires 0.0 < cellSize && x < box.maxX
    ensures multiset(GridFrom(x, box, cellSize, dist))
      == multiset(Column(x, box.minY, box, cellSize, dist)) + multiset(GridFrom(x + cellSize, box, cellSize, dist))
  {
    assert GridFrom(x, box, cellSize, dist)
      == Column(x, box.minY, box, cellSize, dist) + GridFrom(x + cellSize, box, cellSize, dist);
  }

  /** One round of the inner seeding loop: the cell at row y is the next
      cell of the column. */
  lemma ColumnRound(pushed: seq<Cell>, col: seq<Cell>, x: real, y: real, y': real, box: Box, cellSize: real,
                    h: real, c: Cell, dist: (real, real) -> real)
    requires 0.0 < cellSize && y < box.maxY && h == cellSize / 2.0 && y' == y + cellSize
    requires c == CellAt(x + h, y + h, h, dist)
    requires pushed + Column(x, y, box, cellSize, dist) == col
    ensures pushed + [c] + Column(x, y', box, cellSize, dist) == col
    ensures |Column(x, y', box, cellSize, dist)| < |Column(x, y, box, cellSize, dist)|
  {
    var rest := Column(x, y + cellSize, box, cellSize, dist);
    assert Column(x, y, box, cellSize, dist) == [c] + rest;
    assert pushed + ([c] + rest) == pushed + [c] + rest;
  }

  /** Pushing one more cell onto the queue adds it to the pushed ones. */
  lemma PushedOne(start: multiset<Cell>, pushed: seq<Cell>, before: multiset<Cell>, after: multiset<Cell>, c: Cell)
    requires before == start + multiset(pushed) && after == before + multiset{c}
    ensures after == start + multiset(pushed + [c])
  {
    assert multiset(pushed + [c]) == multiset(pushed) + multiset{c};
  }

  /** One round of the inner seeding loop: push the cell at row y, the next
      cell of the column. */
  method SeedCell(q: PriorityQueue.TinyQueue<Cell>, x: real, y: real, h: real, box: Box, cellSize: real,
                  polygon: Polygon, sqrt: real -> real, ghost dist: (real, real) -> real,
                  ghost start: multiset<Cell>, ghost pushed: seq<Cell>, ghost col: seq<Cell>)
    returns (ghost pushed': seq<Cell>)
    requires q.Valid() && q.compare == CellCompare && Measures(dist, polygon, sqrt)
    requires 0.0 < cellSize && h == cellSize / 2.0 && y < box.maxY
    requires pushed + Column(x, y, box, cellSize, dist) == col && multiset(q.data) == start + multiset(pushed)
    modifies q
    ensures q.Valid() && q.compare == CellCompare
    ensures pushed' + Column(x, y + cellSize, box, cellSize, dist) == col && multiset(q.data) == start + multiset(pushed')
    ensures |Column(x, y + cellSize, box, cellSize, dist)| < |Column(x, y, box, cellSize, dist)|
  {
    ghost var before := multiset(q.data);
    var c := PushCell(q, x + h, y + h, h, polygon, sqrt, dist);
    ColumnRound(pushed, col, x, y, y + cellSize, box, cellSize, h, c, dist);
    PushedOne(start, pushed, before, multiset(q.data), c);
    pushed' := pushed + [c];
  }

  /** The inner seeding loop: the cells of the column whose left side is at
      x, from the bottom of the box up. */
  method SeedColumn(q: PriorityQueue.TinyQueue<Cell>, x: real, box: Box, cellSize: real, polygon: Polygon,
                    sqrt: real -> real, ghost dist: (real, real) -> real)
    requires q.Valid() && q.compare == CellCompare && Measures(dist, polygon, sqrt) && 0.0 < cellSize
    modifies q
    ensures q.Valid() && q.compare == CellCompare
    ensures multiset(q.data) == old(multiset(q.data)) + multiset(Column(x, box.minY, box, cellSize, dist))
  {
    ghost var start := multiset(q.data);
    ghost var col := Column(x, box.minY, box, cellSize, dist);
    ghost var pushed: seq<Cell> := [];
    var h := cellSize / 2.0;
    var y := box.minY;
    while y < box.maxY
      invariant q.Valid() && q.compare == CellCompare
      invariant pushed + Column(x, y, box, cellSize, dist) == col
      invariant multiset(q.data) == start + multiset(pushed)
      decreases |Column(x, y, box, cellSize, dist)|
    {
      pushed := SeedCell(q, x, y, h, box, cellSize, polygon, sqrt, dist, start, pushed, col);
      y := y + cellSize;
    }
    assert Column(x, y, box, cellSize, dist) == [];
    assert pushed == col;
  }

  /** The seeding loops: a cell of half side `cellSize / 2` at the centre of
      every square of the grid of step `cellSize` that starts at the lower
      corner of the box, pushed column by column. */
  method SeedGrid(q: PriorityQueue.TinyQueue<Cell>, box: Box, cellSize: real, polygon: Polygon, sqrt: real -> real,
                  ghost dist: (real, real) -> real)
    requires q.Valid() && q.compare == CellCompare && Measures(dist, polygon, sqrt) && 0.0 < cellSize
    requires forall c :: c in q.data ==> Built(c, dist)
    modifies q
    ensures q.Valid() && q.compare == CellCompare
    ensures multiset(q.data) == old(multiset(q.data)) + multiset(Grid(box, cellSize, dist))
    ensures forall c :: c in q.data ==> Built(c, dist)
    ensures forall c :: c in old(q.data) ==> c in q.data
    ensures forall c :: c in q.data ==> c in old(q.data) || Seeded(c, box, cellSize)
  {
    ghost var start := q.data;
    ghost var grid := Grid(box, cellSize, dist);
    var x := box.minX;
    while x < box.maxX
      invariant q.Valid() && q.compare == CellCompare
      invariant multiset(q.data) + multiset(GridFrom(x, box, cellSize, dist)) == multiset(start) + multiset(grid)
      decreases (box.maxX - x) / cellSize
    {
      GridFromStep(x, box, cellSize, dist);
      StepQuotient(x, x + cellSize, box.maxX, cellSize);
      SeedColumn(q, x, box, cellSize, polygon, sqrt, dist);
      x := x + cellSize;
    }
    assert GridFrom(x, box, cellSize, dist) == [];
    Added(start, q.data, grid);
  }

  /** The first best guess: the centroid cell, unless the box-centre cell
      is strictly farther inside. */
  function FirstGuess(centroid: Cell, bboxCell: Cell): (c: Cell)
    ensures c == centroid || c == bboxCell
    ensures centroid.d <= c.d && bboxCell.d <= c.d
    ensures c == bboxCell ==> centroid.d < bboxCell.d || centroid == bboxCell
  {
    if bboxCell.d > centroid.d then bboxCell else centroid
  }

  /** What the search on one ring certifies about the cells it probed: every
      cell of the initial grid was probed, every probed cell is a grid cell
      or a child of a probed cell that was not pruned, no probed cell beats
      the pole, there are best distances after each pop ending with the
      pole's under which the probed cells carry the certificate with nothing
      left pending, and the pole is the cell chosen from the first guess and
      the probed cells. */
  ghost predicate Searched(ring: Ring, precision: real, dist: (real, real) -> real, probed: seq<Cell>, r: Label)
    requires |ring| >= 1
  {
    var b := BBox(ring);
    var cellSize := CellSize(b);
    var start := FirstGuess(CentroidCell([ring], dist), BoxCentreCell(b, dist));
    r.Pole? ==>
      0.0 < cellSize &&
      (forall c :: c in Grid(b, cellSize, dist) ==> c in probed) &&
      (forall c :: c in probed ==> c.d <= r.d) &&
      (exists bests ::
         Running(start.d, probed, bests) && r.d == Before(start.d, bests, |bests|) &&
         Certified(probed, bests, [], precision, dist) &&
         Traced(Grid(b, cellSize, dist), probed, bests, precision, dist)) &&
      exists best :: Chosen(start, probed, best) && r == Pole(best.x, best.y, best.d)
  }

  /** The search's certificate, put together from what the seeding and the
      main loop promise. */
  lemma SearchedFrom(ring: Ring, precision: real, dist: (real, real) -> real, probed: seq<Cell>, bests: seq<real>,
                     queued: seq<Cell>, start: Cell, best: Cell)
    requires |ring| >= 1 && 0.0 < CellSize(BBox(ring))
    requires start == FirstGuess(CentroidCell([ring], dist), BoxCentreCell(BBox(ring), dist))
    requires forall c :: c in Grid(BBox(ring), CellSize(BBox(ring)), dist) ==> c in probed
    requires forall c :: c in queued ==> c in Grid(BBox(ring), CellSize(BBox(ring)), dist)
    requires forall c :: c in probed ==> c.d <= best.d
    requires Running(start.d, probed, bests) && best.d == Before(start.d, bests, |bests|)
    requires Certified(probed, bests, [], precision, dist) && Traced(queued, probed, bests, precision, dist)
    requires Chosen(start, probed, best)
    ensures Searched(ring, precision, dist, probed, Pole(best.x, best.y, best.d))
  {
    TracedWiden(queued, Grid(BBox(ring), CellSize(BBox(ring)), dist), probed, bests, precision, dist);
  }

  /** `polylabel` once the input is known to be a single ring. */
  method LabelRing(ring: Ring, precision: real, sqrt: real -> real)
    returns (r: Label, ghost dist: (real, real) -> real, ghost probed: seq<Cell>)
    requires |ring| >= 1 && 0.0 < precision
    ensures Measures(dist, [ring], sqrt)
    ensures RingLabel(ring, sqrt, dist, r)
    ensures Searched(ring, precision, dist, probed, r)
  {
    var polygon := [ring];
    RingHasEdge(ring);
    dist := DistanceToMeasures(polygon, sqrt);
    var box := BoundingBox(ring);
    var minX, minY, maxX, maxY := box.minX, box.minY, box.maxX, box.maxY;
    var width, height := maxX - minX, maxY - minY;
    var cellSize := Min(width, height);
    probed := [];
    if cellSize == 0.0 {
      return Corner(minX, minY), dist, probed;
    }
    CellCompareIsValid();
    var cellQueue := new PriorityQueue.TinyQueue<Cell>([], CellCompare);
    SeedGrid(cellQueue, box, cellSize, polygon, sqrt, dist);
    ghost var grid := Grid(box, cellSize, dist);
    forall c | c in grid
      ensures c in cellQueue.data
    {
      assert c in multiset(grid);
      assert c in multiset(cellQueue.data);
    }
    forall c | c in cellQueue.data
      ensures c in grid
    {
      assert c in multiset(cellQueue.data);
    }

    var centroidCell := GetCentroidCell(polygon, sqrt, dist);
    var cx, cy := minX + width / 2.0, minY + height / 2.0;
    BoxCentre(box, width, height, cx, cy, dist);
    var bboxCell := NewCell(cx, cy, 0.0, polygon, sqrt, dist);
    var bestCell := centroidCell;
    if bboxCell.d > bestCell.d {
      bestCell := bboxCell;
    }
    assert bestCell == FirstGuess(centroidCell, bboxCell);
    ghost var start := bestCell;
    ghost var queued := cellQueue.data;
    ghost var bests;
    bestCell, probed, bests := Refine(cellQueue, bestCell, precision, polygon, sqrt, dist);
    BuiltDistance(bestCell, dist, polygon, sqrt);
    r := Pole(bestCell.x, bestCell.y, bestCell.d);
    SearchedFrom(ring, precision, dist, probed, bests, queued, start, bestCell);
  }
}
