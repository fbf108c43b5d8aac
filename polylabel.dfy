/**
 * `polylabel`: the entry point. It measures how deeply the input is nested,
 * gives up on values that are not at least an array of arrays, searches a
 * single ring, and labels every element of a deeper array separately,
 * keeping the label whose distance (index 2) is largest.
 */
module Polylabel {
  import opened Wrappers
  import opened Geometry
  import opened Cells
  import opened Nesting
  import opened Search

  /** How a call ends: it returns a value, or a `TypeError` is thrown when a
      collection compares index 2 of a `null` label. */
  datatype Outcome = Returned(point: Label) | Threw

  /** Index 2 of a returned array: the distance of `[x, y, d]`; absent
      (`undefined`) on the two-element degenerate answer. */
  function Third(l: Label): (r: Option<real>)
    requires !l.Null?
    ensures r.Some? <==> l.Pole?
    ensures l.Pole? ==> r.value == l.d
  {
    match l
    case Corner(_, _) => None
    case Pole(_, _, d) => Some(d)
  }

  /** `thispoint[2] > bestpoint[2]`: a comparison with `undefined` is false. */
  predicate Beats(a: Option<real>, b: Option<real>) {
    a.Some? && b.Some? && a.value > b.value
  }

  /** One round of the collection loop: a `TypeError` stays thrown, a
      thrown sub-call throws, reading index 2 of `null` throws, and the new
      label replaces the best one only when its distance is strictly larger,
      so a round that returns keeps a label the newcomer does not beat. */
  function Step(best: Outcome, next: Outcome): (r: Outcome)
    ensures r.Threw? || r == best || r == next
    ensures r.Returned? ==>
      next.Returned? && !next.point.Null? && !r.point.Null? && !Beats(Third(next.point), Third(r.point))
  {
    match best
    case Threw => Threw
    case Returned(b) =>
      match next
      case Threw => Threw
      case Returned(t) =>
        if t.Null? || b.Null? then Threw
        else if Beats(Third(t), Third(b)) then next
        else best
  }

  /** The collection loop after its first n sub-results: the first one is
      the initial best, and each further one goes through `Step`. What it
      returns is one of the sub-results. */
  function Fold(outs: seq<Outcome>, n: nat): (r: Outcome)
    requires 1 <= n <= |outs|
    ensures r.Returned? ==> exists j :: 0 <= j < n && outs[j] == r
    ensures n == 1 ==> r == outs[0]
  {
    if n == 1 then outs[0] else Step(Fold(outs, n - 1), outs[n - 1])
  }

  /** A collection throws exactly when a sub-call throws, or when there are
      at least two sub-results and one of them is `null`. */
  lemma {:induction false} FoldThrows(outs: seq<Outcome>, n: nat)
    requires 1 <= n <= |outs|
    ensures Fold(outs, n).Threw? <==>
      (exists i :: 0 <= i < n && outs[i].Threw?) ||
      (2 <= n && exists i :: 0 <= i < n && outs[i] == Returned(Null))
  {
    if n > 1 {
      FoldThrows(outs, n - 1);
    }
  }

  /** If the first sub-result has a distance and the collection returns,
      the result has a distance that no sub-result exceeds, and it is
      strictly larger than that of every earlier sub-result. If the first
      sub-result is a degenerate answer, the collection returns it or
      throws. */
  lemma {:induction false} FoldIsLargest(outs: seq<Outcome>, n: nat)
    requires 1 <= n <= |outs| && Fold(outs, n).Returned?
    ensures outs[0].Returned? && outs[0].point.Corner? ==> Fold(outs, n) == outs[0]
    ensures outs[0].Returned? && outs[0].point.Pole? ==>
      var r := Fold(outs, n).point;
      r.Pole? &&
      (forall i :: 0 <= i < n && outs[i].Returned? && outs[i].point.Pole? ==> outs[i].point.d <= r.d) &&
      exists j :: 0 <= j < n && outs[j] == Fold(outs, n) &&
        forall i :: 0 <= i < j && outs[i].Returned? && outs[i].point.Pole? ==> outs[i].point.d < r.d
  {
    if n > 1 {
      var prev := Fold(outs, n - 1);
      assert prev.Returned?;
      FoldIsLargest(outs, n - 1);
      if outs[0].Returned? && outs[0].point.Pole? {
        var j :| 0 <= j < n - 1 && outs[j] == prev &&
          forall i :: 0 <= i < j && outs[i].Returned? && outs[i].point.Pole? ==> outs[i].point.d < prev.point.d;
        if Fold(outs, n) != prev {
          assert Fold(outs, n) == outs[n - 1];
        }
      }
    }
  }

  /** What the search on a single ring promised for one label: `dist` gives
      the signed distance to the ring, the label is the one `RingLabel`
      describes, and a pole is the cell chosen from the probed cells, which
      include the whole initial grid and carry the certificate. */
  ghost predicate Labelled(ring: Ring, precision: real, sqrt: real -> real, dist: (real, real) -> real,
                           probed: seq<Cell>, l: Label)
    requires |ring| >= 1
  {
    Measures(dist, [ring], sqrt) && RingLabel(ring, sqrt, dist, l) && Searched(ring, precision, dist, probed, l)
  }

  /** A label the search on a single ring may return: there is a distance
      function and a list of probed cells for which it is `Labelled`. */
  ghost function RingOk(precision: real, sqrt: real -> real): (Ring, Label) -> bool {
    (ring, l) => |ring| >= 1 && exists dist, probed :: Labelled(ring, precision, sqrt, dist, probed, l)
  }

  /** The outcomes `polylabel` can have on an input, where `ok` says which
      labels the search on a ring may return: `null` below depth 2; a label
      `ok` allows at depth 2; deeper, the collection loop over the outcomes
      of a prefix of the elements, which stops early only once it has
      thrown. */
  ghost predicate Sound(v: Nested, ok: (Ring, Label) -> bool, r: Outcome)
    decreases v, 1
  {
    var depth := ArrayDepth(v);
    if depth < 2 then r == Returned(Null)
    else if depth == 2 then
      v.List? && (forall i :: 0 <= i < |v.items| ==> IsPoint(v.items[i])) &&
      r.Returned? && !r.point.Null? && ok(ToRing(v.items), r.point)
    else
      v.List? &&
      exists outs: seq<Outcome> ::
        1 <= |outs| <= |v.items| && r == Fold(outs, |outs|) &&
        (|outs| < |v.items| ==> r.Threw?) && AllSound(v.items, ok, outs)
  }

  /** The elements of a well-formed collection are well-formed inputs. */
  lemma ElementsWellFormed(v: Nested)
    requires WellFormed(v) && ArrayDepth(v) > 2
    ensures v.List? && 1 <= |v.items|
    ensures forall i :: 0 <= i < |v.items| ==> WellFormed(v.items[i])
  {
    ArrayDepthSpec(v);
  }

  /** A label found by the search on the ring that a value of depth 2
      denotes is a sound outcome for that value. */
  lemma SoundRing(v: Nested, precision: real, sqrt: real -> real, dist: (real, real) -> real,
                  probed: seq<Cell>, l: Label)
    requires ArrayDepth(v) == 2
    requires v.List? && |v.items| >= 1 && forall i :: 0 <= i < |v.items| ==> IsPoint(v.items[i])
    requires Labelled(ToRing(v.items), precision, sqrt, dist, probed, l)
    ensures Sound(v, RingOk(precision, sqrt), Returned(l))
  {
  }

  /** Every sub-result visited so far is a sound outcome of its element. */
  ghost predicate AllSound(items: seq<Nested>, ok: (Ring, Label) -> bool, outs: seq<Outcome>)
    requires |outs| <= |items|
    decreases items, 0
  {
    forall i :: 0 <= i < |outs| ==> Sound(items[i], ok, outs[i])
  }

  /** One more round of the collection loop: the fold extends by one `Step`,
      and the visited sub-results stay sound. */
  lemma Extend(items: seq<Nested>, ok: (Ring, Label) -> bool, p: nat, outs: seq<Outcome>, best: Outcome, next: Outcome)
    requires p < |items| && Visited(items, ok, p, outs, best)
    requires Sound(items[p], ok, next)
    ensures Visited(items, ok, p + 1, outs + [next], Step(best, next))
  {
    var outs' := outs + [next];
    forall i | 0 <= i < |outs'|
      ensures Sound(items[i], ok, outs'[i])
    {
      if i < |outs| {
        assert outs'[i] == outs[i];
      } else {
        assert i == |outs| && outs'[i] == next;
      }
    }
    FoldPrefix(outs, [next], |outs|);
  }

  /** The fold over a prefix does not see what follows it. */
  lemma {:induction false} FoldPrefix(outs: seq<Outcome>, more: seq<Outcome>, n: nat)
    requires 1 <= n <= |outs|
    ensures Fold(outs + more, n) == Fold(outs, n)
  {
    if n > 1 {
      FoldPrefix(outs, more, n - 1);
    }
  }

  /** On a collection of rings, such as the coordinates of a GeoJSON
      polygon, `polylabel` never throws: it returns the label of one of the
      rings, and when the first ring has a pole the result is a pole whose
      distance no ring's pole exceeds. */
  lemma CollectionOfRings(v: Nested, ok: (Ring, Label) -> bool, r: Outcome) returns (outs: seq<Outcome>)
    requires ArrayDepth(v) > 2 && v.List? && Sound(v, ok, r)
    requires forall i :: 0 <= i < |v.items| ==> ArrayDepth(v.items[i]) == 2
    ensures 1 <= |outs| == |v.items| && AllSound(v.items, ok, outs) && r == Fold(outs, |outs|)
    ensures forall i :: 0 <= i < |outs| ==> outs[i].Returned? && !outs[i].point.Null?
    ensures r.Returned? && !r.point.Null?
    ensures exists j :: 0 <= j < |outs| && outs[j] == r
    ensures outs[0].point.Pole? ==>
      (r.point.Pole? && forall i :: 0 <= i < |outs| && outs[i].point.Pole? ==> outs[i].point.d <= r.point.d)
  {
    outs :| 1 <= |outs| <= |v.items| && r == Fold(outs, |outs|) &&
      (|outs| < |v.items| ==> r.Threw?) && AllSound(v.items, ok, outs);
    forall i | 0 <= i < |outs|
      ensures outs[i].Returned? && !outs[i].point.Null?
    {
      assert Sound(v.items[i], ok, outs[i]);
    }
    FoldThrows(outs, |outs|);
    FoldIsLargest(outs, |outs|);
  }

  /** The comparison of the collection loop on two sub-results that were
      returned. */
  method Compare(thispoint: Label, bestpoint: Label) returns (r: Outcome)
    ensures r == Step(Returned(bestpoint), Returned(thispoint))
  {
    if thispoint.Null? || bestpoint.Null? {
      return Threw;
    }
    var a, b := Third(thispoint), Third(bestpoint);
    if a.Some? && b.Some? && a.value > b.value {
      r := Returned(thispoint);
    } else {
      r := Returned(bestpoint);
    }
  }

  /** `polylabel(poly, precision)`: `null` below depth 2, the search on a
      single ring at depth 2, and the collection loop deeper. */
  method Polylabel(poly: Nested, precision: real, sqrt: real -> real) returns (r: Outcome)
    requires WellFormed(poly) && 0.0 < precision
    ensures Sound(poly, RingOk(precision, sqrt), r)
    decreases poly, 2
  {
    var depth := ArrayDepth(poly);
    if depth < 2 {
      r := Returned(Null);
    } else if depth == 2 {
      DepthTwoIsRing(poly);
      var ring := ToRing(poly.items);
      var found, dist, probed := LabelRing(ring, precision, sqrt);
      SoundRing(poly, precision, sqrt, dist, probed, found);
      r := Returned(found);
    } else {
      r := Collect(poly, precision, sqrt, RingOk(precision, sqrt));
    }
  }

  /** The state of the collection loop after p elements: their outcomes
      are `outs`, each sound for its element, and the best so far is their
      fold. */
  ghost predicate Visited(items: seq<Nested>, ok: (Ring, Label) -> bool, p: nat, outs: seq<Outcome>, best: Outcome) {
    1 <= p <= |items| && |outs| == p && best == Fold(outs, p) && AllSound(items, ok, outs)
  }

  /** The loop starts from the outcome of the first element. */
  lemma Start(items: seq<Nested>, ok: (Ring, Label) -> bool, first: Outcome)
    requires 1 <= |items| && Sound(items[0], ok, first)
    ensures Visited(items, ok, 1, [first], first)
  {
  }

  /** The loop ends with a sound outcome for the collection: it has visited
      every element, or it has thrown. */
  lemma SoundCollection(v: Nested, ok: (Ring, Label) -> bool, p: nat, outs: seq<Outcome>, best: Outcome)
    requires ArrayDepth(v) > 2 && v.List? && Visited(v.items, ok, p, outs, best)
    requires p < |v.items| ==> best.Threw?
    ensures Sound(v, ok, best)
  {
  }

  /** The collection loop: label every element, keep the first label and
      replace it by any later one whose distance is strictly larger; stop
      once a comparison has thrown. */
  method Collect(poly: Nested, precision: real, sqrt: real -> real, ghost ok: (Ring, Label) -> bool)
    returns (r: Outcome)
    requires WellFormed(poly) && ArrayDepth(poly) > 2 && 0.0 < precision && ok == RingOk(precision, sqrt)
    ensures Sound(poly, ok, r)
    decreases poly, 1
  {
    ElementsWellFormed(poly);
    var items := poly.items;
    var bestpoint := Polylabel(items[0], precision, sqrt);
    ghost var outs := [bestpoint];
    Start(items, ok, bestpoint);
    var p := 1;
    while p < |items| && !bestpoint.Threw?
      invariant Visited(items, ok, p, outs, bestpoint)
      decreases |items| - p
    {
      var thispoint := Polylabel(items[p], precision, sqrt);
      Extend(items, ok, p, outs, bestpoint, thispoint);
      outs := outs + [thispoint];
      if thispoint.Threw? {
        bestpoint := Threw;
      } else {
        bestpoint := Compare(thispoint.point, bestpoint.point);
      }
      p := p + 1;
    }
    SoundCollection(poly, ok, p, outs, bestpoint);
    r := bestpoint;
  }
}
