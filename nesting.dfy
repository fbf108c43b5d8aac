/**
 * The loosely structured coordinate input of `polylabel`: numbers nested in
 * arrays to any depth, and `arrayDepth`, which tells a ring from a collection.
 */
module Nesting {
  import opened Geometry

  /** A JavaScript value as `polylabel` sees it: a number or an array. */
  datatype Nested = Num(value: real) | List(items: seq<Nested>)

  /** `Math.max(0, ...s)`. */
  function MaxOf(s: seq<nat>): (r: nat)
    ensures forall i :: 0 <= i < |s| ==> s[i] <= r
    ensures r == 0 || exists i :: 0 <= i < |s| && s[i] == r
  {
    if |s| == 0 then 0
    else
      var m := MaxOf(s[..|s| - 1]);
      assert forall i :: 0 <= i < |s| - 1 ==> s[..|s| - 1][i] == s[i];
      if s[|s| - 1] > m then s[|s| - 1] else m
  }

  /** `arrayDepth`: 0 for a number, one more than the deepest element for an
      array. */
  function ArrayDepth(v: Nested): (d: nat)
    ensures d == 0 <==> v.Num?
    decreases v
  {
    match v
    case Num(_) => 0
    case List(items) => 1 + MaxOf(seq(|items|, i requires 0 <= i < |items| => ArrayDepth(items[i])))
  }

  /** A number has depth 0; an array is one level deeper than each of its
      elements and exactly one level deeper than its deepest one, so `[]` has
      depth 1. */
  lemma ArrayDepthSpec(v: Nested)
    ensures v.Num? ==> ArrayDepth(v) == 0
    ensures v.List? ==> 1 <= ArrayDepth(v)
    ensures v.List? ==> forall i :: 0 <= i < |v.items| ==> ArrayDepth(v.items[i]) < ArrayDepth(v)
    ensures v.List? ==> ArrayDepth(v) == 1 || exists i :: 0 <= i < |v.items| && ArrayDepth(v.items[i]) == ArrayDepth(v) - 1
  {
    if v.List? {
      var ds := seq(|v.items|, i requires 0 <= i < |v.items| => ArrayDepth(v.items[i]));
      assert ArrayDepth(v) == 1 + MaxOf(ds);
      assert forall i :: 0 <= i < |v.items| ==> ds[i] == ArrayDepth(v.items[i]);
    }
  }

  /** A coordinate pair `[x, y, ...]`; further coordinates are ignored. */
  predicate IsPoint(e: Nested) {
    e.List? && |e.items| >= 2 && e.items[0].Num? && e.items[1].Num?
  }

  function ToPoint(e: Nested): (p: Point)
    requires IsPoint(e)
    ensures p.x == e.items[0].value && p.y == e.items[1].value
  {
    Point(e.items[0].value, e.items[1].value)
  }

  /** The ring that an array of coordinate pairs denotes. */
  function ToRing(items: seq<Nested>): (ring: Ring)
    requires forall i :: 0 <= i < |items| ==> IsPoint(items[i])
    ensures |ring| == |items|
    ensures forall i :: 0 <= i < |items| ==> ring[i] == ToPoint(items[i])
  {
    seq(|items|, i requires 0 <= i < |items| => ToPoint(items[i]))
  }

  /** Inputs whose coordinates are read as numbers wherever `polylabel`
      reads them: a value of depth 2 is an array of coordinate pairs, and the
      elements of a deeper array are inputs of this kind again. */
  ghost predicate WellFormed(v: Nested)
    decreases v
  {
    var d := ArrayDepth(v);
    d < 2 ||
    (d == 2 && forall i :: 0 <= i < |v.items| ==> IsPoint(v.items[i])) ||
    (d > 2 && forall i :: 0 <= i < |v.items| ==> WellFormed(v.items[i]))
  }

  /** A well-formed value of depth 2 is a non-empty ring. */
  lemma DepthTwoIsRing(v: Nested)
    requires WellFormed(v) && ArrayDepth(v) == 2
    ensures v.List? && |v.items| >= 1
    ensures forall i :: 0 <= i < |v.items| ==> IsPoint(v.items[i])
  {
    ArrayDepthSpec(v);
  }
}
