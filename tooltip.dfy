/** The tooltip of a hovered segment: the `" > "`-joined path of flavour names, the title,
    an optional definition and an optional reference row, and the HTML `renderTooltip`
    accumulates from them. */
module Tooltip {
  import opened JsUtil
  import opened WheelTree

  /** The three cells of the reference table's body row. */
  datatype Row = Row(example: string, typeAndIntensity: string, preparation: string)

  /** What the tooltip shows, section by section. */
  datatype Content = Content(path: string, title: string, definition: Option<string>, row: Option<Row>)

  const PathSeparator: string := " > "

  /** `sequence.map(node => node.data.name)`. */
  function Names(t: seq<Node>, path: seq<nat>): (s: seq<string>)
    requires forall k :: 0 <= k < |path| ==> path[k] < |t|
    ensures |s| == |path| && forall k :: 0 <= k < |path| ==> s[k] == t[path[k]].data.name
  {
    seq(|path|, k requires 0 <= k < |path| => t[path[k]].data.name)
  }

  /** The path text: the names along `path` joined by `" > "`. */
  function FlavourNames(t: seq<Node>, path: seq<nat>): (s: string)
    requires forall k :: 0 <= k < |path| ==> path[k] < |t|
  {
    Join(Names(t, path), PathSeparator)
  }

  /** The path text of a node extends its parent's by the separator and the node's own name;
      in the top ring it is the node's name alone. */
  lemma FlavourNamesStep(t: seq<Node>, n: nat)
    requires Valid(t) && 0 < n < |t|
    ensures t[n].depth == 1 ==> FlavourNames(t, AncestorPath(t, n)) == t[n].data.name
    ensures t[n].depth > 1 ==>
      FlavourNames(t, AncestorPath(t, n)) == FlavourNames(t, AncestorPath(t, Parent(t, n))) + PathSeparator + t[n].data.name
  {
    var p := Parent(t, n);
    var pp := AncestorPath(t, p);
    var names := Names(t, pp) + [t[n].data.name];
    assert FlavourNames(t, AncestorPath(t, n)) == Join(names, PathSeparator) by {
      assert AncestorPath(t, n) == pp + [n];
      assert Names(t, pp + [n]) == names;
    }
    AncestorPathShape(t, p);
    if t[n].depth > 1 {
      assert Join(names, PathSeparator) == FlavourNames(t, pp) + PathSeparator + t[n].data.name by {
        JoinSnoc(Names(t, pp), t[n].data.name, PathSeparator);
      }
    } else {
      assert pp == [] && names == [t[n].data.name];
    }
  }

  /** The path text always ends with the hovered node's own name. */
  lemma FlavourNamesEndWithName(t: seq<Node>, n: nat)
    requires Valid(t) && 0 < n < |t|
    ensures var s := FlavourNames(t, AncestorPath(t, n));
      |t[n].data.name| <= |s| && s[|s| - |t[n].data.name|..] == t[n].data.name
  {
    var path := AncestorPath(t, n);
    assert path == AncestorPath(t, Parent(t, n)) + [n];
    var names := Names(t, path);
    assert names[|names| - 1] == t[n].data.name;
    JoinEndsWithLast(names, PathSeparator);
    assert FlavourNames(t, path) == Join(names, PathSeparator);
  }

  /** The middle cell of the reference row: the type, followed by ": " and the intensity when
      both are present; the intensity alone without a type; empty without either. */
  function MiddleCell(r: Reference): (m: string)
    ensures m == "" <==> !Truthy(r.kind) && !Truthy(r.intensity)
    ensures Truthy(r.kind) ==> |r.kind.value| <= |m| && m[..|r.kind.value|] == r.kind.value
    ensures Truthy(r.kind) && Truthy(r.intensity) ==> m == r.kind.value + ": " + r.intensity.value
    ensures Truthy(r.kind) && !Truthy(r.intensity) ==> m == r.kind.value
    ensures !Truthy(r.kind) ==> m == OrElse(r.intensity, "")
  {
    if Truthy(r.kind) then r.kind.value + (if Truthy(r.intensity) then ": " + r.intensity.value else "")
    else OrElse(r.intensity, "")
  }

  /** A reference row is shown when one of the example, intensity or preparation is set. */
  predicate HasReferenceRow(ref: Option<Reference>) {
    ref.Some? && (Truthy(ref.value.example) || Truthy(ref.value.intensity) || Truthy(ref.value.preparation))
  }

  /** The sections of the tooltip of a node with record `d` and path text `flavorNames`. */
  function TooltipContent(d: Datum, flavorNames: string): (c: Content)
    ensures c.path == flavorNames && c.title == d.name
    ensures c.definition.Some? <==> Truthy(d.definition)
    ensures c.definition.Some? ==> c.definition.value == d.definition.value
    ensures c.row.Some? <==> HasReferenceRow(d.reference)
    ensures c.row.Some? ==> c.row.value == Row(OrElse(d.reference.value.example, ""),
                                               MiddleCell(d.reference.value),
                                               OrElse(d.reference.value.preparation, ""))
  {
    Content(
      flavorNames,
      d.name,
      if Truthy(d.definition) then Some(d.definition.value) else None,
      if HasReferenceRow(d.reference) then
        var r := d.reference.value;
        Some(Row(OrElse(r.example, ""), MiddleCell(r), OrElse(r.preparation, "")))
      else None)
  }

  /** A type on its own does not bring up the reference table. */
  lemma TypeAloneShowsNoRow(d: Datum, flavorNames: string)
    requires d.reference.Some? && Truthy(d.reference.value.kind)
    requires !Truthy(d.reference.value.example) && !Truthy(d.reference.value.intensity)
    requires !Truthy(d.reference.value.preparation)
    ensures TooltipContent(d, flavorNames).row == None
  {
  }

  const TableHead: string :=
    "<table><thead><tr><th>Referencia</th><th>Intensidad</th><th>Preparación</th></tr></thead><tbody>"

  function PathDiv(path: string): (h: string) { "<div class=\"tooltip-path\">" + path + "</div>" }
  function TitleDiv(title: string): (h: string) { "<div class=\"tooltip-title\">" + title + "</div>" }
  function DefinitionDiv(definition: string): (h: string) { "<div class=\"tooltip-def\">" + definition + "</div>" }
  function RowHtml(r: Row): (h: string) {
    "<tr><td>" + r.example + "</td><td>" + r.typeAndIntensity + "</td><td>" + r.preparation + "</td></tr>"
  }

  /** The HTML of a tooltip: path and title always, then the optional sections in order. */
  function Html(c: Content): (h: string)
    ensures |Head(c)| <= |h| && h[..|Head(c)|] == Head(c)
  {
    PrefixOfConcat(Head(c), DefinitionPart(c), TablePart(c));
    Head(c) + DefinitionPart(c) + TablePart(c)
  }

  /** A string begins with its first part. */
  lemma PrefixOfConcat(a: string, b: string, c: string)
    ensures |a| <= |a + b + c| && (a + b + c)[..|a|] == a
  {
    assert a + b + c == a + (b + c);
  }

  /** The always-present path and title sections. */
  function Head(c: Content): (h: string) { PathDiv(c.path) + TitleDiv(c.title) }

  function DefinitionPart(c: Content): (h: string) {
    if c.definition.Some? then DefinitionDiv(c.definition.value) else ""
  }

  function TablePart(c: Content): (h: string) {
    if c.row.Some? then TableHead + RowHtml(c.row.value) + "</tbody></table>" else ""
  }

  /** `renderTooltip(d, flavorNames)`: builds the tooltip's HTML piece by piece. */
  method RenderTooltip(d: Datum, flavorNames: string) returns (html: string)
    ensures html == Html(TooltipContent(d, flavorNames))
  {
    ghost var c := TooltipContent(d, flavorNames);
    var ref := d.reference;
    html := PathDiv(flavorNames);
    html := html + TitleDiv(d.name);
    assert html == Head(c);
    if Truthy(d.definition) {
      html := html + DefinitionDiv(d.definition.value);
    }
    assert html == Head(c) + DefinitionPart(c);
    ghost var before := html;
    if ref.Some? && (Truthy(ref.value.example) || Truthy(ref.value.intensity) || Truthy(ref.value.preparation)) {
      html := html + TableHead;
      html := html + RowHtml(Row(OrElse(ref.value.example, ""), MiddleCell(ref.value), OrElse(ref.value.preparation, "")));
      html := html + "</tbody></table>";
      assert html == before + TablePart(c);
    } else {
      assert html == before + TablePart(c);
    }
  }
}
