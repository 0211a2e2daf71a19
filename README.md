# Coffee flavour wheel: verified model of its data logic

`script.js` draws a coffee flavour wheel: a d3 sunburst built from a JSON file of flavour families
(`Afrutado`, `Tostado`, …) and their sub-flavours. This project models the deterministic logic
in its data callback and proves what that logic promises:

- **Colour resolution** (`applyColors` with `colorPalette`). A top-down, in-place pass over
  the hierarchy. A top-ring family takes its palette hue, or else its own colour. A deeper node
  takes a lightened copy of its parent's colour, with blend factor
  `min(0.6, 0.18 + 0.06·siblingIndex + 0.05·(depth−1))`. When the parent's colour does not
  parse, the node copies it. When the parent has no colour, the node keeps its own colour.
- **Ancestor path** (`getAncestors`). A loop that climbs parent links and prepends each node.
- **Hover controller** (`handleMouseOver` / `handleMouseMove` / `handleMouseOut`). Per-segment
  `fade` and `highlight` flags, plus the tooltip's opacity, position and HTML.
- **Tooltip assembly** (`renderTooltip` and the `" > "` join of the path names).
- **Drawing rules** that are plain comparisons. These are the deepest ring's outer-radius trim,
  which nodes are drawn, the fill fallback `#ccc`, the label-width threshold `0.012`, and the
  label flip.

Modules, one per part of the script:

| file | module | what |
|---|---|---|
| js_util.dfy | `JsUtil` | optional text and its truthiness, `\|\|`, `indexOf`, `filter`, `join`, `Math.min/max` |
| wheel_tree.dfy | `WheelTree` | the hierarchy as a node sequence with parent and child indices; `getAncestors` |
| colours.dfy | `Colours` | palette, blend factor, the resolution rule, the class `Hierarchy` rewriting colours in place |
| geometry.dfy | `Geometry` | outer-radius rule, drawn and labelled segments, fill, label flip |
| tooltip.dfy | `Tooltip` | path text, tooltip sections, the HTML `renderTooltip` builds |
| interaction.dfy | `Interaction` | the class `Controller` with the three mouse handlers |

The d3 hierarchy becomes a `seq<Node>`. Index 0 is the synthetic root built at script.js:45.
Every other node records its parent index, its child indices in layout order, its depth and
the partition's `x0, x1, y0, y1`. The predicate `WheelTree.Valid` states the shape that
d3.hierarchy guarantees.

`applyColors` becomes two mutually recursive methods of `Colours.Hierarchy`. `ApplyColors`
writes one node; `ApplyToChildren` is the `forEach` over its children. Both are proved
against the function `Resolved`, which gives each node's colour from its parent's resolved
colour. The call at script.js:74 is `ApplyColorsFromRoot`. When the root has children, it
ends with exactly `ResolvedTree(old(nodes))`. Without them, `root.children` is undefined and
the call throws before writing anything; the method then returns `ok == false`.

The d3 colour functions are not modelled; they are passed in as a `ColourSpace` value with two
operations. `parses(c)` stands for `d3.color(c)` being non-null. `lighten(c, t)` stands for
`d3.interpolateLab(d3.color(c).formatHex(), "#ffffff")(t)`. The power scale `wheelRadiusScale`
is passed to `OuterRadius` as a function `scale`. Pointer positions are parameters of
`MouseMove`.

Points of script.js's behaviour that are easy to misread:

- Below the top ring, the lightened parent colour overrides a node's own explicit colour. The
  node's own colour counts only when the parent has none.
- Highlighting marks the whole ancestor path, including the node itself.
- `d3.partition().size([2π, 1])` gives equal rings, with `y0 = depth / (height + 1)`. The
  pixel radii are these equal rings mapped through the power scale `wheelRadiusScale`, plus
  the deepest-ring trim.

## Model

| member | source | states |
|---|---|---|
| `JsUtil.OrElse` | script.js:100 | `x \|\| dflt` on an optional text: the text when it is present and non-empty, otherwise the default; also the `\|\| ''` cells of script.js:175 |
| `JsUtil.IndexOf` | script.js:64 | the first position holding `x`; -1 exactly when `x` is absent |
| `JsUtil.Filter` | script.js:93 | the result holds exactly the elements satisfying the predicate, each as many times as in the input, and is no longer than the input |
| `JsUtil.FilterConcat` | script.js:93 | filtering keeps the input order: it distributes over concatenation |
| `JsUtil.FilterIncreasing` | script.js:93 | filtering a strictly increasing sequence of indices gives a strictly increasing one |
| `JsUtil.Join` | script.js:131 | `join(sep)`: empty for no element, the element itself for one; the result starts with the first element, followed by `sep` when there are more. `JoinSnoc` and `JoinEndsWithLast` state the rest |
| `JsUtil.Min` | script.js:65 | `Math.min`: at most each argument, and equal to one of them |
| `JsUtil.Max` | script.js:87 | `Math.max`: at least each argument, and equal to one of them |
| `JsUtil.JoinSnoc` | script.js:131 | joining one more name appends `sep` and that name |
| `WheelTree.AncestorPath` | script.js:156-164 | the chain from the top ring down to `n`; every element is a non-root index ≤ `n` |
| `WheelTree.AncestorPathShape` | script.js:156-164 | the length is the node's depth; element `k` has depth `k+1`, so the first is a top-ring node; the root is never in it; the last element is `n`; each element is the parent of the next; the first element's parent is the root |
| `WheelTree.GetAncestors` | script.js:156-164 | the `unshift` loop returns `AncestorPath(t, n)`: depth-many non-root nodes, ending at `n`, starting in the top ring, linked by parent |
| `Colours.Palette` | script.js:9-19 | `colorPalette`, a constant with no contract of its own: the nine family names and their hues. `ResolvedTopRing` states how it is used |
| `Colours.Blend` | script.js:65 | the blend factor never exceeds 0.6, is at least 0.23 below the top ring, and is either the cap or the linear term |
| `Colours.BlendMonotone` | script.js:65 | the blend factor is non-decreasing in sibling index and in depth |
| `Colours.SiblingIndex` | script.js:64 | `indexOf` finds the node among its parent's children, so the index is in range and points at the node |
| `Colours.Rule` | script.js:54-70 | the colour `applyColors` writes into one node. It has no `ensures`; its precedence is stated by `ResolvedTopRing` (palette, own colour, parent colour), `ResolvedInnerRing` (lightened, copied or kept) and `RuleIdempotent` |
| `Colours.Resolved` | script.js:53-74 | each node's colour after the whole pass: the root's own, every other node's `Rule` applied to its parent's result. It has no `ensures`; `ResolvedTopRing`, `ResolvedInnerRing`, `ColourInherited` and `ResolvedAgain` state its behaviour, and the methods of `Hierarchy` are proved against it |
| `Colours.ResolvedTree` | script.js:53-74 | the resolved hierarchy differs from the input only in colours |
| `Colours.ResolvedTopRing` | script.js:53-60 | a top-ring node gets its palette hue when its name is in the palette; otherwise its own colour if it has one; otherwise the root's colour |
| `Colours.TopRingWithoutColour` | script.js:45-60 | the root has no colour, so a top-ring family with neither a palette entry nor an own colour stays colourless |
| `Colours.ResolvedInnerRing` | script.js:58-72 | below the top ring there are four cases. A parsing parent colour gives `lighten(parent, Blend(idx, depth))`, overriding the own colour. A non-parsing parent colour is copied. With a colourless parent the node keeps its own colour, or else keeps the parent's colourless value |
| `Colours.InnerRingBlendBounds` | script.js:64-65 | the factor actually used below the top ring lies in [0.23, 0.6] |
| `Colours.InnerRingHasColour` | script.js:58-70 | below the top ring a node has a colour iff its parent or its own record has one (given that interpolation yields a colour) |
| `Colours.ColourInherited` | script.js:53-72 | once a node has a colour, every node below it has one |
| `Colours.RuleIdempotent` | script.js:53-71 | applying the rule to a node already carrying its result gives the same result |
| `Colours.ResolvedAgain` | script.js:53-74 | resolving the resolved hierarchy again gives every node the colour it already had |
| `Colours.ResolvedTreeIdempotent` | script.js:53-74 | colour resolution is idempotent on the whole hierarchy |
| `Colours.Hierarchy.ApplyColors` | script.js:53-73 | requires the parent resolved and the subtree untouched. On return, the node's whole subtree holds its resolved colours, every other node is unchanged, and only colours change |
| `Colours.Hierarchy.ApplyToChildren` | script.js:72-74 | visiting the children in order resolves every node below `i` and leaves `i` and everything outside its subtree unchanged |
| `Colours.Hierarchy.ApplyColorsFromRoot` | script.js:74 | `root.children.forEach(applyColors)` fails exactly when the root has no children, because `root.children` is then undefined and the call throws; the hierarchy is then unchanged. Otherwise it turns the hierarchy into exactly `ResolvedTree` of the input; the root keeps its colour |
| `Geometry.MaxDepth` | script.js:77 | `root.height` is a depth reached by some node and not exceeded by any |
| `Geometry.OuterRadius` | script.js:85-88 | at the maximum depth the outer radius is `max(outer − leafTrim, inner + 5)`: at least `inner + 5`, and at most `outer` when the ring has room; at other depths it is the scaled outer radius |
| `Geometry.DrawnSegments` | script.js:93 | the drawn nodes are exactly the nodes of positive depth, each once, in increasing index order |
| `Geometry.DrawnAreNonRoot` | script.js:93 | in a well-formed hierarchy the drawn segments are exactly the non-root nodes |
| `Geometry.Fill` | script.js:100 | the fill is never empty: the node's colour when it has one, else `#ccc` |
| `Geometry.Labelled` | script.js:109-112 | exactly the drawn segments with `x1 − x0 > 0.012` get a label, in the segments' order |
| `Geometry.LabelTurn` | script.js:116-121 | the label is turned 180° exactly when its mid-angle is at least π, and is not turned otherwise |
| `Tooltip.Names` | script.js:131 | one name per path node, in path order |
| `Tooltip.FlavourNames` | script.js:131 | the path text, `Join` of `Names` with `" > "`. It has no `ensures`; `FlavourNamesStep` and `FlavourNamesEndWithName` state its behaviour |
| `Tooltip.FlavourNamesStep` | script.js:131 | the path text of a top-ring node is its name. Deeper down it is the parent's path text, then `" > "`, then the node's name |
| `Tooltip.FlavourNamesEndWithName` | script.js:130-131 | the path text always ends with the hovered node's own name |
| `Tooltip.MiddleCell` | script.js:175 | the middle cell is empty iff there is neither type nor intensity. With a type, it starts with the type, followed by `": " + intensity` exactly when an intensity is present. Without a type, it is the intensity or `""` |
| `Tooltip.HasReferenceRow` | script.js:173 | the table test: a reference exists and has an example, intensity or preparation. It has no `ensures`; `TooltipContent` and `TypeAloneShowsNoRow` state its effect |
| `Tooltip.TooltipContent` | script.js:166-177 | the path and title are always present. The definition section appears iff the definition is non-empty. The reference row appears iff a reference exists with an example, intensity or preparation, and holds those cells |
| `Tooltip.TypeAloneShowsNoRow` | script.js:173 | a reference with only a type does not bring up the table |
| `Tooltip.Html` | script.js:168-169 | the HTML always begins with the path div and then the title div |
| `Tooltip.RenderTooltip` | script.js:166-179 | the `+=` accumulation yields exactly the HTML of `TooltipContent`: head, then the optional definition, then the optional table |
| `Interaction.PathIsDrawn` | script.js:139 | every node of an ancestor path is a drawn segment |
| `Interaction.HighlightIsPath` | script.js:139 | flagging the segments that lie on the path highlights exactly the set of path nodes |
| `Interaction.Controller.constructor` | script.js:95-103 | segments start without `fade` or `highlight`; the tooltip, the empty element created at script.js:37-39, has no HTML and no inline styles |
| `Interaction.Controller.MouseOver` | script.js:129-140 | every segment fades. `highlight` is set exactly on the segments in `getAncestors(d)`, so the highlighted set is the path. The tooltip becomes visible with the rendered HTML, and its position is unchanged |
| `Interaction.Controller.MouseMove` | script.js:142-147 | only the tooltip position changes, to `(pageX + 14, pageY + 14)`; flags, opacity and HTML stay |
| `Interaction.Controller.MouseOut` | script.js:149-153 | opacity becomes 0 and both flags are cleared on every segment; the HTML and position stay |

## Left out

- `d3.hierarchy(...).sum(...).sort(...)` and `d3.partition` (script.js:35, 48-50, 76) are library code. The order of children and `x0, x1, y0, y1` are inputs of the model. The node `value` that `.sum` computes is not modelled, because it only feeds the sort and the partition.
- `d3.scalePow().exponent(1.3)` (script.js:21-24) is a floating-point power scale. Its outputs come from the `scale` function parameter.
- `d3.color`, `formatHex` and `d3.interpolateLab` (script.js:62-66) are colour-space arithmetic. They are the two abstract operations of `ColourSpace`.
- InnerRingHasColour and ColourInherited hold only under `LightenNonEmpty`, the fact that interpolation always yields a non-empty colour string. That fact is about d3 and is stated as a precondition.
- DOM and SVG work (script.js:28-39, 95-124) and the async `d3.json` load (script.js:44): rendering and I/O. The TypeError at script.js:74 is reported by `ApplyColorsFromRoot` returning `ok == false`. Other throws inside the callback, such as `jsonData.meta` on a `null` body at script.js:45, are not modelled. The `catch` that logs it and the drawing steps it skips (script.js:76-124, 181-183) are not modelled.
- The label transform is left out: its text, its rotation angle, its radius (script.js:119, which uses the scale and half the trim) and `dy`. Only the flip is modelled, as `LabelTurn`.
- `padAngle` and `padRadius` (script.js:82-83) are arc-drawing settings for the library.
- JavaScript numbers are modelled as exact reals. Floating-point rounding is not modelled: not in the blend factor or the radii, not in the label's angle comparison (`LabelTurn`, with `Pi` as the decimal JavaScript prints for `Math.PI`), and not in the `0.012` width threshold of `Labelled`.
- `root.descendants()` returns nodes in breadth-first order. The model lists segments in increasing index order, so the proved order is index order, not the DOM order of the drawn paths.
- `colorPalette[name]` looks up a plain object. A name such as `constructor` would hit an inherited property in JavaScript; the model's map has only the nine families.
- JSON fields are modelled as strings or absent. Numbers or other JSON values in `name`, `color`, `definition` or `reference` are not modelled.
- `Datum.name` is always a string. A record without `name` is not modelled. In JavaScript the tooltip title would then read `undefined` (script.js:169), and the path text would hold an empty element in the `" > "` join (script.js:131).
- The tooltip HTML inserts names and texts unescaped, and the model does the same. It does not reason about markup contained in those texts.
- The unused local `definition` at script.js:132 has no effect and is not modelled.
- The visual effect of the `fade` and `highlight` classes comes from a stylesheet that is not part of this model.
- The `px` suffix of the tooltip's `left` and `top` styles is dropped; the numeric value is modelled.
