/** The laid-out flavour hierarchy the wheel works on, and the ancestor walk of `getAncestors`.

    The d3 hierarchy of objects with `parent` and `children` links is stored as a sequence
    of nodes addressed by index: index 0 is the synthetic root built from the JSON file,
    every other node names its parent by index and lists its children (already sorted by
    the layout) by index. */
module WheelTree {
  import opened JsUtil

  /** The `reference` record of a flavour; `kind` is its `type` field. */
  datatype Reference = Reference(example: Text, kind: Text, intensity: Text, preparation: Text)

  /** `node.data`: the JSON record of one flavour. */
  datatype Datum = Datum(name: string, colour: Text, definition: Text, reference: Option<Reference>)

  /** One d3 hierarchy node with the partition layout's outputs taken as given. */
  datatype Node = Node(
    data: Datum,
    parent: Option<nat>,
    children: seq<nat>,
    depth: nat,
    x0: real, x1: real, y0: real, y1: real)

  /** The shape d3.hierarchy guarantees: one root at index 0 of depth 0, every other node
      one level below a parent that precedes it, and parent and children links that agree. */
  predicate Valid(t: seq<Node>) {
    |t| > 0 &&
    t[0].parent == None && t[0].depth == 0 &&
    (forall j :: 0 < j < |t| ==>
      t[j].parent.Some? && t[j].parent.value < j &&
      t[j].depth == t[t[j].parent.value].depth + 1 &&
      j in t[t[j].parent.value].children) &&
    (forall j, k :: 0 <= j < |t| && 0 <= k < |t[j].children| ==>
      t[j].children[k] < |t| && t[t[j].children[k]].parent == Some(j)) &&
    (forall j, k, m :: 0 <= j < |t| && 0 <= k < m < |t[j].children| ==>
      t[j].children[k] != t[j].children[m])
  }

  /** `node.parent` of a node other than the root. */
  function Parent(t: seq<Node>, j: nat): (p: nat)
    requires Valid(t) && 0 < j < |t|
    ensures p < j && t[j].depth == t[p].depth + 1 && j in t[p].children
  {
    t[j].parent.value
  }

  /** The chain `getAncestors` returns: from the depth-1 ancestor down to `n`, root excluded. */
  function AncestorPath(t: seq<Node>, n: nat): (p: seq<nat>)
    requires Valid(t) && n < |t|
    ensures forall k :: 0 <= k < |p| ==> 0 < p[k] <= n
    decreases n
  {
    if t[n].parent.None? then [] else AncestorPath(t, Parent(t, n)) + [n]
  }

  /** Everything `getAncestors` promises about its result. */
  lemma {:induction false} AncestorPathShape(t: seq<Node>, n: nat)
    requires Valid(t) && n < |t|
    ensures var p := AncestorPath(t, n);
      |p| == t[n].depth &&
      (forall k :: 0 <= k < |p| ==> 0 < p[k] <= n && t[p[k]].depth == k + 1) &&
      (forall k :: 0 <= k < |p| - 1 ==> t[p[k + 1]].parent == Some(p[k])) &&
      (n != 0 ==> p[|p| - 1] == n) &&
      (|p| > 0 ==> t[p[0]].parent == Some(0))
    decreases n
  {
    if n != 0 {
      var q := Parent(t, n);
      AncestorPathShape(t, q);
      if q == 0 {
        assert AncestorPath(t, q) == [];
      }
    }
  }

  /** An ancestor sits in the path at the position given by its depth. */
  lemma AncestorAtDepth(t: seq<Node>, n: nat, a: nat)
    requires Valid(t) && n < |t| && a in AncestorPath(t, n)
    ensures 0 < a < |t| && 1 <= t[a].depth <= |AncestorPath(t, n)|
    ensures AncestorPath(t, n)[t[a].depth - 1] == a
  {
    AncestorPathShape(t, n);
  }

  /** `j` lies in the subtree rooted at `i` (the root's subtree is the whole tree). */
  predicate InSubtree(t: seq<Node>, j: nat, i: nat)
    requires Valid(t) && j < |t|
  {
    i == 0 || i in AncestorPath(t, j)
  }

  /** Every node of `i`'s subtree other than `i` itself lies below exactly one child of `i`:
      its ancestor one level below `i`. */
  lemma ChildTowardExists(t: seq<Node>, i: nat, j: nat)
    requires Valid(t) && i < |t| && j < |t| && InSubtree(t, j, i) && j != i
    ensures t[i].depth < |AncestorPath(t, j)|
    ensures AncestorPath(t, j)[t[i].depth] in t[i].children
    ensures forall c' :: c' in t[i].children && c' in AncestorPath(t, j) ==> c' == AncestorPath(t, j)[t[i].depth]
  {
    var p := AncestorPath(t, j);
    AncestorPathShape(t, j);
    var d := t[i].depth;
    if i == 0 {
      assert j != 0;
    } else {
      AncestorAtDepth(t, j, i);
      assert p[d - 1] == i;
    }
    assert d < |p|;
    var c := p[d];
    assert t[c].parent == Some(i);
    assert c < |t| && 0 < c;
    assert c in t[i].children by { assert Parent(t, c) == i; }
    forall c' | c' in t[i].children && c' in p
      ensures c' == c
    {
      AncestorAtDepth(t, j, c');
      var k :| 0 <= k < |t[i].children| && t[i].children[k] == c';
      assert t[c'].parent == Some(i);
      assert t[c'].depth == d + 1;
    }
  }

  /** The child of `i` whose subtree holds `j`. */
  ghost function ChildToward(t: seq<Node>, i: nat, j: nat): (c: nat)
    requires Valid(t) && i < |t| && j < |t| && InSubtree(t, j, i) && j != i
    ensures c in t[i].children && c in AncestorPath(t, j)
    ensures forall c' :: c' in t[i].children && c' in AncestorPath(t, j) ==> c' == c
  {
    ChildTowardExists(t, i, j);
    AncestorPath(t, j)[t[i].depth]
  }

  /** The subtree of a child is contained in its parent's subtree and misses the parent. */
  lemma ChildSubtree(t: seq<Node>, i: nat, c: nat, j: nat)
    requires Valid(t) && i < |t| && j < |t| && c in t[i].children && c in AncestorPath(t, j)
    ensures InSubtree(t, j, i) && j != i
  {
    var p := AncestorPath(t, j);
    AncestorAtDepth(t, j, c);
    AncestorPathShape(t, j);
    var k :| 0 <= k < |t[i].children| && t[i].children[k] == c;
    assert t[c].parent == Some(i);
    if i != 0 {
      assert t[c].depth == t[i].depth + 1;
      assert p[t[c].depth - 2] == i;
    }
    assert j >= c > i;
  }

  /** `getAncestors`: climb the parent links from `n`, putting each node in front. */
  method GetAncestors(t: seq<Node>, n: nat) returns (path: seq<nat>)
    requires Valid(t) && n < |t|
    ensures path == AncestorPath(t, n)
    ensures |path| == t[n].depth
    ensures forall k :: 0 <= k < |path| ==> 0 < path[k] < |t|
    ensures n != 0 ==> path[|path| - 1] == n && t[path[0]].depth == 1
    ensures forall k :: 0 <= k < |path| - 1 ==> t[path[k + 1]].parent == Some(path[k])
  {
    path := [];
    var current: nat := n;
    while t[current].parent.Some?
      invariant current < |t|
      invariant AncestorPath(t, n) == AncestorPath(t, current) + path
      decreases current
    {
      path := [current] + path;
      current := t[current].parent.value;
    }
    AncestorPathShape(t, n);
  }
}
