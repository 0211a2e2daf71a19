/** The colour resolver of `applyColors`: palette lookup for the top ring, the node's own
    colour, the parent's colour, and a lightened copy of the parent's colour below the
    top ring. The d3 colour library is abstract: `ColourSpace.parses` stands for
    `d3.color(c)` returning a colour, `ColourSpace.lighten(c, t)` for
    `d3.interpolateLab(d3.color(c).formatHex(), "#ffffff")(t)`. */
module Colours {
  import opened JsUtil
  import opened WheelTree

  /** The colour operations the resolver needs from d3. */
  datatype ColourSpace = ColourSpace(parses: string -> bool, lighten: (string, real) -> string)

  /** d3.interpolateLab always produces a colour string ("rgb(...)"), never an empty one. */
  ghost predicate LightenNonEmpty(cs: ColourSpace) {
    forall c, t :: cs.lighten(c, t) != ""
  }

  /** `colorPalette`: the hue of each top-level flavour family. */
  const Palette: map<string, string> := map[
    "Afrutado" := "#DA1D23",
    "Ácido/Fermentado" := "#EBB40D",
    "Verde/Vegetal" := "#197A2F",
    "Otros" := "#0AA3B5",
    "Tostado" := "#C94930",
    "Especias" := "#AD213E",
    "Frutos secos/Cacao" := "#A87B64",
    "Dulce" := "#E65832",
    "Floral" := "#DA0D68"
  ]

  /** The factor by which a node below the top ring is moved toward white. */
  function Blend(idx: int, depth: int): (t: real)
    ensures t <= 0.6
    ensures idx >= 0 && depth >= 2 ==> 0.23 <= t
    ensures t == 0.6 || t == 0.18 + 0.06 * idx as real + 0.05 * (depth - 1) as real
  {
    Min(0.6, 0.18 + idx as real * 0.06 + (depth - 1) as real * 0.05)
  }

  /** Later siblings and deeper nodes are never darker. */
  lemma BlendMonotone(i1: int, i2: int, d1: int, d2: int)
    requires i1 <= i2 && d1 <= d2
    ensures Blend(i1, d1) <= Blend(i2, d2)
  {
  }

  /** The colour `applyColors` writes into a non-root node, given the node's record, its
      depth, its parent's current colour and its position among its siblings. */
  function Rule(d: Datum, depth: nat, parentColour: Text, idx: int, cs: ColourSpace): (c: Text)
  {
    var own := if depth == 1 && d.name in Palette then Some(Palette[d.name]) else d.colour;
    var inherited := if !Truthy(own) then parentColour else own;
    if depth > 1 && Truthy(parentColour) then
      if cs.parses(parentColour.value) then Some(cs.lighten(parentColour.value, Blend(idx, depth)))
      else parentColour
    else inherited
  }

  /** `node.parent.children.indexOf(node)`. */
  function SiblingIndex(t: seq<Node>, j: nat): (idx: int)
    requires Valid(t) && 0 < j < |t|
    ensures 0 <= idx < |t[Parent(t, j)].children| && t[Parent(t, j)].children[idx] == j
  {
    IndexOf(t[Parent(t, j)].children, j)
  }

  /** The colour node `j` holds once `applyColors` has run over the whole tree `t`: the root
      keeps its colour, every other node gets `Rule` applied to its parent's result. */
  function Resolved(t: seq<Node>, j: nat, cs: ColourSpace): (c: Text)
    requires Valid(t) && j < |t|
    decreases j
  {
    if t[j].parent.None? then t[j].data.colour
    else Rule(t[j].data, t[j].depth, Resolved(t, Parent(t, j), cs), SiblingIndex(t, j), cs)
  }

  /** Replace a node's colour, leaving everything else about it alone. */
  function WithColour(n: Node, c: Text): (m: Node)
    ensures m.data.colour == c
  {
    n.(data := n.data.(colour := c))
  }

  /** Two hierarchies that differ at most in their nodes' colours. */
  predicate Restyled(a: seq<Node>, b: seq<Node>) {
    |a| == |b| && forall j :: 0 <= j < |a| ==> WithColour(a[j], None) == WithColour(b[j], None)
  }

  /** The whole hierarchy after `root.children.forEach(applyColors)`. */
  function ResolvedTree(t: seq<Node>, cs: ColourSpace): (r: seq<Node>)
    requires Valid(t)
    ensures Restyled(r, t)
  {
    seq(|t|, j requires 0 <= j < |t| => WithColour(t[j], Resolved(t, j, cs)))
  }

  /** Colours play no part in the tree's shape. */
  lemma RestyledValid(a: seq<Node>, b: seq<Node>)
    requires Restyled(a, b) && Valid(b)
    ensures Valid(a)
  {
    forall j | 0 <= j < |a| ensures a[j].parent == b[j].parent && a[j].children == b[j].children && a[j].depth == b[j].depth {
      assert WithColour(a[j], None).parent == WithColour(b[j], None).parent;
      assert WithColour(a[j], None).children == WithColour(b[j], None).children;
      assert WithColour(a[j], None).depth == WithColour(b[j], None).depth;
    }
  }

  /** Top ring: the palette hue if the family is in the palette, otherwise the node's own
      colour, otherwise whatever the root carries. */
  lemma ResolvedTopRing(t: seq<Node>, j: nat, cs: ColourSpace)
    requires Valid(t) && 0 < j < |t| && t[j].depth == 1
    ensures t[j].data.name in Palette ==> Resolved(t, j, cs) == Some(Palette[t[j].data.name])
    ensures t[j].data.name !in Palette && Truthy(t[j].data.colour) ==> Resolved(t, j, cs) == t[j].data.colour
    ensures t[j].data.name !in Palette && !Truthy(t[j].data.colour) ==> Resolved(t, j, cs) == t[0].data.colour
  {
    assert Parent(t, j) == 0;
  }

  /** The root is built from the file's title alone and carries no colour, so a top-ring
      family without a palette entry or a colour of its own stays colourless. */
  lemma TopRingWithoutColour(t: seq<Node>, j: nat, cs: ColourSpace)
    requires Valid(t) && 0 < j < |t| && t[j].depth == 1 && t[0].data.colour == None
    requires t[j].data.name !in Palette && !Truthy(t[j].data.colour)
    ensures Resolved(t, j, cs) == None
  {
    ResolvedTopRing(t, j, cs);
  }

  /** Below the top ring: a parent colour that parses is lightened by `Blend`, overriding the
      node's own colour; one that does not parse is copied; without a parent colour the
      node keeps its own colour, else the parent's (colourless) value. */
  lemma ResolvedInnerRing(t: seq<Node>, j: nat, cs: ColourSpace)
    requires Valid(t) && 0 < j < |t| && t[j].depth > 1
    ensures var pc := Resolved(t, Parent(t, j), cs);
      (Truthy(pc) && cs.parses(pc.value) ==>
         Resolved(t, j, cs) == Some(cs.lighten(pc.value, Blend(SiblingIndex(t, j), t[j].depth)))) &&
      (Truthy(pc) && !cs.parses(pc.value) ==> Resolved(t, j, cs) == pc) &&
      (!Truthy(pc) && Truthy(t[j].data.colour) ==> Resolved(t, j, cs) == t[j].data.colour) &&
      (!Truthy(pc) && !Truthy(t[j].data.colour) ==> Resolved(t, j, cs) == pc)
  {
  }

  /** The lightening factor used below the top ring stays within [0.23, 0.6]. */
  lemma InnerRingBlendBounds(t: seq<Node>, j: nat)
    requires Valid(t) && 0 < j < |t| && t[j].depth > 1
    ensures 0.23 <= Blend(SiblingIndex(t, j), t[j].depth) <= 0.6
  {
  }

  /** Below the top ring a node has a colour exactly when its parent or its own record has one. */
  lemma InnerRingHasColour(t: seq<Node>, j: nat, cs: ColourSpace)
    requires Valid(t) && 0 < j < |t| && t[j].depth > 1 && LightenNonEmpty(cs)
    ensures Truthy(Resolved(t, j, cs)) <==> Truthy(Resolved(t, Parent(t, j), cs)) || Truthy(t[j].data.colour)
  {
  }

  /** Once a node has a colour, its whole subtree has one. */
  lemma {:induction false} ColourInherited(t: seq<Node>, a: nat, j: nat, cs: ColourSpace)
    requires Valid(t) && a < |t| && j < |t| && a in AncestorPath(t, j) && LightenNonEmpty(cs)
    requires Truthy(Resolved(t, a, cs))
    ensures Truthy(Resolved(t, j, cs))
    decreases j
  {
    if j != a {
      var p := Parent(t, j);
      assert AncestorPath(t, j) == AncestorPath(t, p) + [j];
      ColourInherited(t, a, p, cs);
      if t[j].depth == 1 {
        assert t[p].depth == 0;
        AncestorPathShape(t, p);
        assert false;
      }
    }
  }

  /** Applying the rule to its own output changes nothing. */
  lemma RuleIdempotent(d: Datum, depth: nat, parentColour: Text, idx: int, cs: ColourSpace)
    ensures Rule(d.(colour := Rule(d, depth, parentColour, idx, cs)), depth, parentColour, idx, cs)
         == Rule(d, depth, parentColour, idx, cs)
  {
  }

  /** Resolving an already resolved hierarchy from scratch gives every node the same colour. */
  lemma {:induction false} ResolvedAgain(t: seq<Node>, j: nat, cs: ColourSpace)
    requires Valid(t) && j < |t|
    ensures Valid(ResolvedTree(t, cs)) && Resolved(ResolvedTree(t, cs), j, cs) == Resolved(t, j, cs)
    decreases j
  {
    var r := ResolvedTree(t, cs);
    RestyledValid(r, t);
    if t[j].parent.Some? {
      var p := Parent(t, j);
      ResolvedAgain(t, p, cs);
      assert r[p].parent == t[p].parent && r[j].parent == t[j].parent;
      assert Parent(r, j) == p;
      assert r[p].children == t[p].children;
      assert SiblingIndex(r, j) == SiblingIndex(t, j);
      RuleIdempotent(t[j].data, t[j].depth, Resolved(t, p, cs), SiblingIndex(t, j), cs);
    }
  }

  /** Colour resolution is idempotent. */
  lemma ResolvedTreeIdempotent(t: seq<Node>, cs: ColourSpace)
    requires Valid(t)
    ensures Valid(ResolvedTree(t, cs)) && ResolvedTree(ResolvedTree(t, cs), cs) == ResolvedTree(t, cs)
  {
    var r := ResolvedTree(t, cs);
    RestyledValid(r, t);
    forall j | 0 <= j < |t| ensures ResolvedTree(r, cs)[j] == r[j] {
      ResolvedAgain(t, j, cs);
    }
  }

  /** The loop state of `ApplyToChildren(i)` after `k` children: a node below one of the
      first `k` children is resolved, a node below a later child is still as given. */
  ghost predicate ChildrenDone(t0: seq<Node>, cur: seq<Node>, i: nat, k: nat, cs: ColourSpace)
    requires Valid(t0) && i < |t0| && |cur| == |t0| && k <= |t0[i].children|
  {
    forall j :: 0 <= j < |t0| && InSubtree(t0, j, i) && j != i ==>
      if ChildToward(t0, i, j) in t0[i].children[..k] then cur[j].data.colour == Resolved(t0, j, cs)
      else cur[j] == t0[j]
  }

  lemma ChildrenDoneAtStart(t0: seq<Node>, cur: seq<Node>, i: nat, cs: ColourSpace)
    requires Valid(t0) && i < |t0| && |cur| == |t0|
    requires forall j :: 0 <= j < |t0| && InSubtree(t0, j, i) && j != i ==> cur[j] == t0[j]
    ensures ChildrenDone(t0, cur, i, 0, cs)
  {
  }

  lemma ChildrenDoneAtEnd(t0: seq<Node>, cur: seq<Node>, i: nat, cs: ColourSpace)
    requires Valid(t0) && i < |t0| && |cur| == |t0|
    requires ChildrenDone(t0, cur, i, |t0[i].children|, cs)
    ensures forall j :: 0 <= j < |t0| && InSubtree(t0, j, i) && j != i ==> cur[j].data.colour == Resolved(t0, j, cs)
  {
    assert t0[i].children[..|t0[i].children|] == t0[i].children;
  }

  /** Before child `k` is visited its subtree is untouched, and its parent precedes it. */
  lemma BeforeChild(t0: seq<Node>, cur: seq<Node>, i: nat, k: nat, cs: ColourSpace)
    requires Valid(t0) && i < |t0| && |cur| == |t0| && k < |t0[i].children|
    requires ChildrenDone(t0, cur, i, k, cs)
    ensures var c := t0[i].children[k];
      i < c < |t0| && Parent(t0, c) == i &&
      forall j :: 0 <= j < |t0| && InSubtree(t0, j, c) ==> cur[j] == t0[j]
  {
    var c := t0[i].children[k];
    assert c in t0[i].children;
    forall j | 0 <= j < |t0| && InSubtree(t0, j, c)
      ensures cur[j] == t0[j]
    {
      ChildSubtree(t0, i, c, j);
      assert ChildToward(t0, i, j) == c;
      assert c !in t0[i].children[..k];
    }
  }

  /** Visiting child `k` resolves exactly its subtree, which moves the loop state on by one. */
  lemma AfterChild(t0: seq<Node>, before: seq<Node>, after: seq<Node>, i: nat, k: nat, cs: ColourSpace)
    requires Valid(t0) && i < |t0| && |before| == |t0| && |after| == |t0| && k < |t0[i].children|
    requires ChildrenDone(t0, before, i, k, cs)
    requires forall j :: 0 <= j < |t0| && InSubtree(t0, j, t0[i].children[k]) ==>
      after[j].data.colour == Resolved(t0, j, cs)
    requires forall j :: 0 <= j < |t0| && !InSubtree(t0, j, t0[i].children[k]) ==> after[j] == before[j]
    ensures ChildrenDone(t0, after, i, k + 1, cs)
  {
    var c := t0[i].children[k];
    assert c in t0[i].children;
    assert t0[i].children[..k + 1] == t0[i].children[..k] + [c];
    forall j | 0 <= j < |t0| && InSubtree(t0, j, i) && j != i
      ensures if ChildToward(t0, i, j) in t0[i].children[..k + 1] then after[j].data.colour == Resolved(t0, j, cs)
              else after[j] == t0[j]
    {
      if InSubtree(t0, j, c) {
        assert ChildToward(t0, i, j) == c;
      } else {
        assert ChildToward(t0, i, j) != c;
      }
    }
  }

  /** Visiting child `k` leaves `i` and everything outside `i`'s subtree alone. */
  lemma OutsideChild(t0: seq<Node>, before: seq<Node>, after: seq<Node>, i: nat, k: nat)
    requires Valid(t0) && i < |t0| && |before| == |t0| && |after| == |t0| && k < |t0[i].children|
    requires forall j :: 0 <= j < |t0| && !InSubtree(t0, j, t0[i].children[k]) ==> after[j] == before[j]
    ensures forall j :: 0 <= j < |t0| && (!InSubtree(t0, j, i) || j == i) ==> after[j] == before[j]
  {
    var c := t0[i].children[k];
    assert c in t0[i].children;
    forall j | 0 <= j < |t0| && (!InSubtree(t0, j, i) || j == i)
      ensures after[j] == before[j]
    {
      if InSubtree(t0, j, c) { ChildSubtree(t0, i, c, j); }
    }
  }

  /** Recolouring one node keeps a hierarchy a restyling of the original. */
  lemma RestyledRecolour(a: seq<Node>, b: seq<Node>, i: nat, c: Text)
    requires Restyled(a, b) && i < |a|
    ensures Restyled(a[i := WithColour(a[i], c)], b)
  {
    var a' := a[i := WithColour(a[i], c)];
    assert WithColour(a'[i], None) == WithColour(a[i], None);
  }

  /** With the parent already resolved and the node still as given, `Rule` applied to what
      the current hierarchy holds is the node's resolved colour. */
  lemma ResolvedFromParent(t0: seq<Node>, cur: seq<Node>, i: nat, cs: ColourSpace)
    requires Valid(t0) && 0 < i < |t0| && Restyled(cur, t0) && cur[i] == t0[i]
    requires cur[Parent(t0, i)].data.colour == Resolved(t0, Parent(t0, i), cs)
    ensures cur[i].parent == Some(Parent(t0, i))
    ensures Resolved(t0, i, cs) == Rule(cur[i].data, cur[i].depth, cur[Parent(t0, i)].data.colour,
                                        IndexOf(cur[Parent(t0, i)].children, i), cs)
  {
    var p := Parent(t0, i);
    assert WithColour(cur[p], None).children == WithColour(t0[p], None).children;
  }

  /** The hierarchy whose node records `applyColors` rewrites in place. */
  class Hierarchy {
    var nodes: seq<Node>

    constructor (t: seq<Node>)
      ensures nodes == t
    {
      nodes := t;
    }

    /** `applyColors(node)` for a non-root node `i`: write its colour, then recurse into its
        children. Its parent has already been resolved; nothing of `i`'s subtree has been
        written yet. Afterwards exactly `i`'s subtree holds its resolved colours. */
    method ApplyColors(i: nat, cs: ColourSpace, ghost t0: seq<Node>)
      requires Valid(t0) && 0 < i < |t0| && Restyled(nodes, t0)
      requires nodes[Parent(t0, i)].data.colour == Resolved(t0, Parent(t0, i), cs)
      requires forall j :: 0 <= j < |t0| && InSubtree(t0, j, i) ==> nodes[j] == t0[j]
      modifies this
      ensures Restyled(nodes, t0)
      ensures forall j :: 0 <= j < |t0| && InSubtree(t0, j, i) ==> nodes[j].data.colour == Resolved(t0, j, cs)
      ensures forall j :: 0 <= j < |t0| && !InSubtree(t0, j, i) ==> nodes[j] == old(nodes[j])
      decreases |t0| - i, 1
    {
      assert InSubtree(t0, i, i) by { AncestorPathShape(t0, i); }
      var node := nodes[i];
      ResolvedFromParent(t0, nodes, i, cs);
      var p := node.parent.value;
      var colour := node.data.colour;
      if node.depth == 1 && node.data.name in Palette {
        colour := Some(Palette[node.data.name]);
      }
      if !Truthy(colour) {
        colour := nodes[p].data.colour;
      }
      if node.depth > 1 && Truthy(nodes[p].data.colour) {
        var base := nodes[p].data.colour.value;
        if cs.parses(base) {
          var idx := IndexOf(nodes[p].children, i);
          colour := Some(cs.lighten(base, Blend(idx, node.depth)));
        } else {
          colour := nodes[p].data.colour;
        }
      }
      assert colour == Resolved(t0, i, cs);
      RestyledRecolour(nodes, t0, i, colour);
      nodes := nodes[i := WithColour(node, colour)];
      ApplyToChildren(i, cs, t0);
    }

    /** `(node.children || []).forEach(applyColors)`: once `i` holds its resolved colour,
        resolve each child's subtree in turn. The call `root.children.forEach(applyColors)`
        is this method at the root. */
    method ApplyToChildren(i: nat, cs: ColourSpace, ghost t0: seq<Node>)
      requires Valid(t0) && i < |t0| && Restyled(nodes, t0)
      requires nodes[i].data.colour == Resolved(t0, i, cs)
      requires forall j :: 0 <= j < |t0| && InSubtree(t0, j, i) && j != i ==> nodes[j] == t0[j]
      modifies this
      ensures Restyled(nodes, t0)
      ensures forall j :: 0 <= j < |t0| && InSubtree(t0, j, i) ==> nodes[j].data.colour == Resolved(t0, j, cs)
      ensures forall j :: 0 <= j < |t0| && (!InSubtree(t0, j, i) || j == i) ==> nodes[j] == old(nodes[j])
      decreases |t0| - i, 0
    {
      var children := nodes[i].children;
      assert children == t0[i].children by {
        assert WithColour(nodes[i], None).children == WithColour(t0[i], None).children;
      }
      ChildrenDoneAtStart(t0, nodes, i, cs);
      var k := 0;
      while k < |children|
        invariant 0 <= k <= |children|
        invariant Restyled(nodes, t0)
        invariant nodes[i] == old(nodes[i])
        invariant ChildrenDone(t0, nodes, i, k, cs)
        invariant forall j :: 0 <= j < |t0| && !InSubtree(t0, j, i) ==> nodes[j] == old(nodes[j])
      {
        var c := children[k];
        ghost var before := nodes;
        BeforeChild(t0, nodes, i, k, cs);
        ApplyColors(c, cs, t0);
        AfterChild(t0, before, nodes, i, k, cs);
        OutsideChild(t0, before, nodes, i, k);
        k := k + 1;
      }
      ChildrenDoneAtEnd(t0, nodes, i, cs);
    }

    /** `root.children.forEach(applyColors)`: every node ends up with its resolved colour.
        d3.hierarchy leaves `children` unset when the list is missing or empty. A root without
        children therefore throws a TypeError before any node is written. `ok` is false exactly
        then, and the hierarchy is unchanged. */
    method ApplyColorsFromRoot(cs: ColourSpace) returns (ok: bool)
      requires Valid(nodes)
      modifies this
      ensures ok <==> |old(nodes)[0].children| > 0
      ensures ok ==> nodes == ResolvedTree(old(nodes), cs)
      ensures !ok ==> nodes == old(nodes)
    {
      if |nodes[0].children| == 0 {
        return false;
      }
      ok := true;
      ghost var t0 := nodes;
      ApplyToChildren(0, cs, t0);
      assert |nodes| == |t0|;
      forall j | 0 <= j < |t0| ensures nodes[j] == ResolvedTree(t0, cs)[j] {
        assert WithColour(nodes[j], None) == WithColour(t0[j], None);
        if j == 0 {
          assert nodes[0] == t0[0];
        } else {
          assert InSubtree(t0, j, 0);
          assert nodes[j].data.colour == Resolved(t0, j, cs);
          assert nodes[j] == WithColour(WithColour(nodes[j], None), Resolved(t0, j, cs));
          assert ResolvedTree(t0, cs)[j] == WithColour(WithColour(t0[j], None), Resolved(t0, j, cs));
        }
      }
    }
  }
}
