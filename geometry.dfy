/** The plain comparisons of the drawing code: the outer-radius trim of the deepest ring,
    which nodes become segments, the fill fallback, which segments get a label and when a
    label is turned over. The power scale's outputs are given as a function `scale`. */
module Geometry {
  import opened JsUtil
  import opened WheelTree

  /** `Math.min(width, height) / 2` for the 800 x 800 canvas. */
  const Radius: real := 400.0
  /** `radius * 0.26`, cut from the outermost ring so that it stays off the canvas edge. */
  const LeafTrim: real := Radius * 0.26
  /** The thinnest the trimmed outermost ring may become. */
  const MinRingThickness: real := 5.0
  /** Narrowest angular width, in radians, that still gets a label. */
  const LabelMinWidth: real := 0.012
  /** `Math.PI` to the digits JavaScript prints for it (the shortest decimal that reads back as
      the double); the exact value of the double is not used. */
  const Pi: real := 3.141592653589793
  /** Fill of a segment without a colour. */
  const DefaultFill: string := "#ccc"

  /** `root.height`: the depth of the deepest node. */
  function MaxDepth(t: seq<Node>): (m: nat)
    ensures forall j :: 0 <= j < |t| ==> t[j].depth <= m
    ensures |t| > 0 ==> exists j :: 0 <= j < |t| && t[j].depth == m
  {
    if |t| == 0 then 0
    else
      var rest := MaxDepth(t[..|t| - 1]);
      var last := t[|t| - 1].depth;
      assert forall j :: 0 <= j < |t| - 1 ==> t[..|t| - 1][j] == t[j];
      if last >= rest then last else rest
  }

  /** The arc's `outerRadius` accessor: the deepest ring loses `LeafTrim`, but keeps at least
      `MinRingThickness` over its inner radius; every other ring keeps its scaled radius. */
  function OuterRadius(scale: real -> real, n: Node, maxDepth: nat): (r: real)
    ensures n.depth == maxDepth ==>
      r >= scale(n.y0) + MinRingThickness && r >= scale(n.y1) - LeafTrim &&
      (r == scale(n.y1) - LeafTrim || r == scale(n.y0) + MinRingThickness)
    ensures n.depth == maxDepth && scale(n.y1) >= scale(n.y0) + MinRingThickness ==>
      scale(n.y0) + MinRingThickness <= r <= scale(n.y1)
    ensures n.depth != maxDepth ==> r == scale(n.y1)
  {
    var outer := scale(n.y1);
    if n.depth == maxDepth then Max(outer - LeafTrim, scale(n.y0) + MinRingThickness) else outer
  }

  /** The indices of all nodes, in order. */
  function Indices(n: nat): (s: seq<nat>)
    ensures |s| == n && forall i :: 0 <= i < n ==> s[i] == i
  {
    seq(n, i requires 0 <= i < n => i)
  }

  /** `root.descendants().filter(d => d.depth > 0)`: the nodes drawn as segments. */
  function DrawnSegments(t: seq<Node>): (s: seq<nat>)
    ensures forall i: nat :: i in s <==> i < |t| && t[i].depth > 0
    ensures Increasing(s)
  {
    var all := Indices(|t|);
    assert forall i: nat :: i in all <==> i < |t| by {
      forall i: nat ensures i in all <==> i < |t| {
        if i < |t| { assert all[i] == i; }
      }
    }
    assert Increasing(all);
    var drawn := (i: nat) => i < |t| && t[i].depth > 0;
    FilterIncreasing(all, drawn);
    Filter(all, drawn)
  }

  /** Exactly the non-root nodes are drawn. */
  lemma DrawnAreNonRoot(t: seq<Node>)
    requires Valid(t)
    ensures forall i: nat :: i in DrawnSegments(t) <==> 0 < i < |t|
  {
  }

  /** The `fill` style of a segment: its colour, or the neutral default. */
  function Fill(colour: Text): (f: string)
    ensures f != ""
    ensures Truthy(colour) ==> f == colour.value
    ensures !Truthy(colour) ==> f == DefaultFill
  {
    OrElse(colour, DefaultFill)
  }

  /** The labelled segments: those wider than `LabelMinWidth`, in drawing order. */
  function Labelled(t: seq<Node>, segments: seq<nat>): (s: seq<nat>)
    ensures |s| <= |segments|
    ensures forall i: nat :: i in s <==> i in segments && i < |t| && t[i].x1 - t[i].x0 > LabelMinWidth
    ensures Increasing(segments) ==> Increasing(s)
  {
    var wide := (i: nat) => i < |t| && t[i].x1 - t[i].x0 > LabelMinWidth;
    assert Increasing(segments) ==> Increasing(Filter(segments, wide)) by {
      if Increasing(segments) { FilterIncreasing(segments, wide); }
    }
    Filter(segments, wide)
  }

  /** The final `rotate(...)` of a label, in degrees: labels whose mid-angle lies in the
      second half-turn of the circle are turned over so that they do not read upside down. */
  function LabelTurn(n: Node): (turn: real)
    ensures (n.x0 + n.x1) / 2.0 < Pi ==> turn == 0.0
    ensures (n.x0 + n.x1) / 2.0 >= Pi ==> turn == 180.0
  {
    var midAngle := (n.x0 + n.x1) / 2.0;
    var angleDeg := midAngle * 180.0 / Pi;
    var isRightSide := angleDeg < 180.0;
    assert isRightSide <==> midAngle < Pi by {
      assert angleDeg * Pi == midAngle * 180.0;
    }
    if isRightSide then 0.0 else 180.0
  }
}
