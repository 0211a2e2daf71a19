/** The hover handlers: per-segment `fade` / `highlight` classes and the tooltip's
    opacity, position and HTML, held by one controller over the coloured, laid-out tree. */
module Interaction {
  import opened JsUtil
  import opened WheelTree
  import opened Geometry
  import opened Tooltip

  /** Offset, in pixels, between the pointer and the tooltip's top-left corner. */
  const Padding: real := 14.0

  /** The tooltip element's state: its inline `opacity`, `left` and `top` styles (absent
      until a handler first sets them) and its HTML. */
  datatype TooltipState = TooltipState(opacity: Option<int>, left: Option<real>, top: Option<real>, html: string)

  /** Every node of an ancestor path is a drawn segment. */
  lemma PathIsDrawn(t: seq<Node>, d: nat)
    requires Valid(t) && d < |t|
    ensures forall a :: a in AncestorPath(t, d) ==> a in DrawnSegments(t)
  {
    AncestorPathShape(t, d);
    forall a | a in AncestorPath(t, d) ensures a in DrawnSegments(t) {
      AncestorAtDepth(t, d, a);
    }
  }

  /** The nodes whose segment has `highlight` set, given the segments and their flags. */
  function HighlightedNodes(segments: seq<nat>, highlight: seq<bool>): set<nat>
    requires |highlight| == |segments|
  {
    set k | 0 <= k < |segments| && highlight[k] :: segments[k]
  }

  /** Highlighting the segments that lie on an ancestor path marks exactly that path. */
  lemma HighlightIsPath(t: seq<Node>, d: nat, highlight: seq<bool>)
    requires Valid(t) && d < |t| && |highlight| == |DrawnSegments(t)|
    requires forall k :: 0 <= k < |highlight| ==> (highlight[k] <==> DrawnSegments(t)[k] in AncestorPath(t, d))
    ensures HighlightedNodes(DrawnSegments(t), highlight) == set a | a in AncestorPath(t, d)
  {
    var segments := DrawnSegments(t);
    PathIsDrawn(t, d);
    forall a | a in AncestorPath(t, d) ensures a in HighlightedNodes(segments, highlight) {
      var k :| 0 <= k < |segments| && segments[k] == a;
      assert highlight[k];
    }
  }

  class Controller {
    const tree: seq<Node>
    const segments: seq<nat>
    var fade: seq<bool>
    var highlight: seq<bool>
    var tooltip: TooltipState

    ghost predicate Valid()
      reads this
    {
      WheelTree.Valid(tree) && segments == DrawnSegments(tree) &&
      |fade| == |segments| && |highlight| == |segments|
    }

    /** The segments as drawn: no `fade` or `highlight` class. The tooltip is the empty
        `<div id="tooltip">` appended to the body (script.js:37-39), without inline styles. */
    constructor (t: seq<Node>)
      requires WheelTree.Valid(t)
      ensures Valid() && tree == t
      ensures forall k :: 0 <= k < |segments| ==> !fade[k] && !highlight[k]
      ensures tooltip == TooltipState(None, None, None, "")
    {
      tree := t;
      segments := DrawnSegments(t);
      fade := seq(|DrawnSegments(t)|, _ => false);
      highlight := seq(|DrawnSegments(t)|, _ => false);
      tooltip := TooltipState(None, None, None, "");
    }

    /** `handleMouseOver(event, d)`: show the tooltip of `d`, fade every segment and
        highlight those on the path from the top ring down to `d`. */
    method MouseOver(d: nat)
      requires Valid() && d in segments
      modifies this
      ensures Valid()
      ensures forall k :: 0 <= k < |segments| ==> fade[k]
      ensures forall k :: 0 <= k < |segments| ==> (highlight[k] <==> segments[k] in AncestorPath(tree, d))
      ensures HighlightedNodes(segments, highlight) == set a | a in AncestorPath(tree, d)
      ensures tooltip == old(tooltip).(opacity := Some(1),
        html := Html(TooltipContent(tree[d].data, FlavourNames(tree, AncestorPath(tree, d)))))
    {
      var sequence := GetAncestors(tree, d);
      var flavorNames := FlavourNames(tree, sequence);
      var html := RenderTooltip(tree[d].data, flavorNames);
      tooltip := tooltip.(html := html);
      tooltip := tooltip.(opacity := Some(1));
      fade := seq(|segments|, _ => true);
      highlight := seq(|segments|, k requires 0 <= k < |segments| => segments[k] in sequence);
      HighlightIsPath(tree, d, highlight);
    }

    /** `handleMouseMove(event)`: move the tooltip next to the pointer and nothing else. */
    method MouseMove(pageX: real, pageY: real)
      requires Valid()
      modifies this
      ensures Valid()
      ensures fade == old(fade) && highlight == old(highlight)
      ensures tooltip == old(tooltip).(left := Some(pageX + Padding), top := Some(pageY + Padding))
    {
      tooltip := tooltip.(left := Some(pageX + Padding), top := Some(pageY + Padding));
    }

    /** `handleMouseOut()`: hide the tooltip and clear both classes on every segment. */
    method MouseOut()
      requires Valid()
      modifies this
      ensures Valid()
      ensures forall k :: 0 <= k < |segments| ==> !fade[k] && !highlight[k]
      ensures HighlightedNodes(segments, highlight) == {}
      ensures tooltip == old(tooltip).(opacity := Some(0))
    {
      tooltip := tooltip.(opacity := Some(0));
      fade := seq(|segments|, _ => false);
      highlight := seq(|segments|, _ => false);
    }
  }
}
