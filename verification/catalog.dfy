/** `DocWriter.get_elements` (cli/xml2rfc/writers/doc.py): the catalog of
    the element definitions of the schema, one record per element name,
    with its attributes, its children and their compact renderings, and
    the elements that refer to it.

    The XPath queries are the structural searches of module Pattern. The
    baseline schema (RFC 7991), the deprecated element names and the
    deprecated (element, attribute) pairs are parameters. The functions
    below follow the loops of the source step by step; GetElements runs
    those loops and is proved to compute exactly what the functions say. */
module Catalog {
  import opened Wrappers
  import opened Strings
  import opened Pattern
  import opened Compact
  import opened Order
  import Renderer

  /** `dict(value=v.text)`, with the `description` that `process` adds. */
  datatype ChoiceEntry = ChoiceEntry(value: Option<string>, description: Option<string>)

  /** The record of one attribute. `default` is absent (None) unless it is
      a non-empty text; `choices` is empty and `rnc` None when the
      attribute has no choice of values; `description` and
      `choiceDescriptions` are filled in by `process`. */
  datatype AttributeEntry = AttributeEntry(
    name: string,
    required: bool,
    default: Option<string>,
    choices: seq<ChoiceEntry>,
    rnc: Option<Option<string>>,
    isNew: bool,
    deprecated: bool,
    description: Option<string>,
    choiceDescriptions: bool)

  /** `(c, rnc.render(c))` */
  datatype ChildEntry = ChildEntry(node: Node, rnc: Option<string>)

  /** The record of one element. */
  datatype ElementEntry = ElementEntry(
    attributes: seq<AttributeEntry>,
    children: seq<ChildEntry>,
    rnc: string,
    parents: seq<string>,
    isNew: bool,
    deprecatedAttributes: bool,
    description: Option<string>)

  /** `parents`, a `defaultdict(set)`: each set is kept as a list without
      repeats, in the order the names were added. */
  type Parents = map<string, seq<string>>

  /** The attributes the catalog never lists. */
  const IgnoredAttributes: set<string> := {
    "xml:base", "xml:lang", "xml:space",
    "derivedAnchor", "derivedContent", "derivedCounter", "derivedLink",
    "displayFormat", "expiresDate", "mode", "originalSrc", "pn",
    "quoteTitle", "pageno", "scripts", "slugifiedName" }

  /** A rendering step's value with the renderer's table afterwards. */
  datatype Step<T> = Step(value: Result<T, RenderError>, ns: NsNames)

  /** `e.get('name')` as it is used for keys and lookups. */
  function NameOf(n: Node): string { Show(Name(n)) }

  function AttributeName(a: AttributeEntry): string { a.name }

  /** Entries put in front of a successful list. */
  function PrependAll<T>(prefix: seq<T>, s: Step<seq<T>>): (r: Step<seq<T>>)
    ensures r.ns == s.ns
    ensures s.value.Success? ==> r.value == Success(prefix + s.value.value)
    ensures s.value.Failure? ==> r == s
  {
    match s.value
    case Success(v) => Step(Success(prefix + v), s.ns)
    case Failure(_) => s
  }

  lemma PrependAllTwice<T>(a: seq<T>, b: seq<T>, s: Step<seq<T>>)
    ensures PrependAll(a, PrependAll(b, s)) == PrependAll(a + b, s)
  {
    if s.value.Success? {
      assert a + (b + s.value.value) == (a + b) + s.value.value;
    }
  }

  // ---------------------------------------------------------------------
  // attributes

  /** The record of the attribute found at `site` below element `ename`,
      with `rnc` the rendering of its first child when it has choices. */
  function AttributeEntryOf(ename: string, site: Site, baseline: Node, depAttrs: set<(string, string)>,
                            rnc: Option<Option<string>>): (r: AttributeEntry)
    ensures r.name == NameOf(site.node)
    ensures r.required <==> site.parentTag != Optional
    ensures r.default.Some? <==> Truthy(Attr(site.node, DefaultValueKey))
    ensures r.default.Some? ==> r.default == Attr(site.node, DefaultValueKey)
    ensures r.isNew <==> !DefinesAttribute(baseline, ename, r.name)
    ensures r.deprecated <==> (ename, r.name) in depAttrs
    ensures |r.choices| == |ChoiceValues(site.node)|
    ensures forall i :: 0 <= i < |r.choices| ==> r.choices[i].value == ChoiceValues(site.node)[i].text
  {
    var a := site.node;
    var aname := NameOf(a);
    var default := Attr(a, DefaultValueKey);
    var values := ChoiceValues(a);
    AttributeEntry(
      aname,
      site.parentTag != Optional,
      if Truthy(default) then default else None,
      ChoiceEntries(values),
      rnc,
      !DefinesAttribute(baseline, ename, aname),
      (ename, aname) in depAttrs,
      None,
      false)
  }

  /** `[dict(value=v.text) for v in values]` */
  function ChoiceEntries(values: seq<Node>): (r: seq<ChoiceEntry>)
    ensures |r| == |values|
    ensures forall i :: 0 <= i < |r| ==> r[i].value == values[i].text && r[i].description.None?
  {
    seq(|values|, i requires 0 <= i < |values| => ChoiceEntry(values[i].text, None))
  }

  /** The attribute loop: one record per attribute site whose name is not
      ignored, in document order; an attribute with choices has its first
      child rendered, and a failing rendering stops the loop. */
  function AttributeEntries(deprecated: set<string>, ns: NsNames, ename: string, sites: seq<Site>,
                            baseline: Node, depAttrs: set<(string, string)>): Step<seq<AttributeEntry>>
    decreases |sites|
  {
    if sites == [] then Step(Success([]), ns)
    else
      var a := sites[0].node;
      if NameOf(a) in IgnoredAttributes then
        AttributeEntries(deprecated, ns, ename, sites[1..], baseline, depAttrs)
      else if ChoiceValues(a) == [] then
        PrependAll([AttributeEntryOf(ename, sites[0], baseline, depAttrs, None)],
                   AttributeEntries(deprecated, ns, ename, sites[1..], baseline, depAttrs))
      else
        var first := Render(deprecated, ns, a.children[0]);
        match first.value
        case Failure(e) => Step(Failure(e), first.ns)
        case Success(v) =>
          PrependAll([AttributeEntryOf(ename, sites[0], baseline, depAttrs, Some(v))],
                     AttributeEntries(deprecated, first.ns, ename, sites[1..], baseline, depAttrs))
  }

  // ---------------------------------------------------------------------
  // children and parents

  /** A child that is not an `attribute` and has no `attribute` child. */
  predicate Qualifies(c: Node)
  {
    c.tag != Attribute && ChildrenTagged(c.children, Attribute) == []
  }

  /** `parents[cname].add(ename)` for each name in turn. */
  function AddParent(parents: Parents, names: seq<string>, ename: string): Parents
    decreases |names|
  {
    if names == [] then parents
    else
      var c := names[0];
      var known := if c in parents then parents[c] else [];
      AddParent(parents[c := if ename in known then known else known + [ename]], names[1..], ename)
  }

  datatype Kids = Kids(children: seq<ChildEntry>, parents: Parents)

  function PrependKids(prefix: seq<ChildEntry>, s: Step<Kids>): (r: Step<Kids>)
    ensures r.ns == s.ns
    ensures s.value.Success? ==> r.value == Success(Kids(prefix + s.value.value.children, s.value.value.parents))
    ensures s.value.Failure? ==> r == s
  {
    match s.value
    case Success(k) => Step(Success(Kids(prefix + k.children, k.parents)), s.ns)
    case Failure(_) => s
  }

  lemma PrependKidsTwice(a: seq<ChildEntry>, b: seq<ChildEntry>, s: Step<Kids>)
    ensures PrependKids(a, PrependKids(b, s)) == PrependKids(a + b, s)
  {
    if s.value.Success? {
      assert a + (b + s.value.value.children) == (a + b) + s.value.value.children;
    }
  }

  /** The child loop: every qualifying child is rendered and recorded, and
      each time the element is added as a parent of every name it refers
      to; a failing rendering stops the loop. */
  function ChildEntries(deprecated: set<string>, ns: NsNames, ename: string, refs: seq<string>,
                        cs: seq<Node>, parents: Parents): Step<Kids>
    decreases |cs|
  {
    if cs == [] then Step(Success(Kids([], parents)), ns)
    else if !Qualifies(cs[0]) then ChildEntries(deprecated, ns, ename, refs, cs[1..], parents)
    else
      var first := Render(deprecated, ns, cs[0]);
      match first.value
      case Failure(e) => Step(Failure(e), first.ns)
      case Success(v) =>
        PrependKids([ChildEntry(cs[0], v)],
                    ChildEntries(deprecated, first.ns, ename, refs, cs[1..], AddParent(parents, refs, ename)))
  }

  // ---------------------------------------------------------------------
  // elements

  /** The renderings of the recorded children. */
  function ChildRenderings(kids: seq<ChildEntry>): (r: seq<Option<string>>)
    ensures |r| == |kids| && forall i :: 0 <= i < |kids| ==> r[i] == kids[i].rnc
  {
    seq(|kids|, i requires 0 <= i < |kids| => kids[i].rnc)
  }

  /** The record of one element once its loops are done: attributes sorted
      by name, the children's renderings joined, no parents yet. */
  function ElementEntryOf(isNew: bool, attrs: seq<AttributeEntry>, kids: seq<ChildEntry>): ElementEntry
  {
    var sorted := SortBy(attrs, AttributeName);
    ElementEntry(
      sorted,
      kids,
      Join(", ", Present(ChildRenderings(kids))),
      [],
      isNew,
      exists i :: 0 <= i < |sorted| && sorted[i].deprecated,
      None)
  }

  datatype Table = Table(elements: map<string, ElementEntry>, parents: Parents)

  /** The loop over the element definitions; a later definition of the same
      name replaces the record of an earlier one, while the parents it
      added stay. */
  function Definitions(deprecated: set<string>, ns: NsNames, defs: seq<Node>, baseline: Node,
                       depAttrs: set<(string, string)>, t: Table): Step<Table>
    decreases |defs|
  {
    if defs == [] then Step(Success(t), ns)
    else
      var element := defs[0];
      var ename := NameOf(element);
      var attrs := AttributeEntries(deprecated, ns, ename, AttributeSites(element), baseline, depAttrs);
      match attrs.value
      case Failure(e) => Step(Failure(e), attrs.ns)
      case Success(aes) =>
        var kids := ChildEntries(deprecated, attrs.ns, ename, RefNames(element), element.children, t.parents);
        match kids.value
        case Failure(e) => Step(Failure(e), kids.ns)
        case Success(k) =>
          var entry := ElementEntryOf(!DefinesElement(baseline, ename), aes, k.children);
          Definitions(deprecated, kids.ns, defs[1..], baseline, depAttrs, Table(t.elements[ename := entry], k.parents))
  }

  /** `elements[k]['parents'] = list(v); elements[k]['parents'].sort()` */
  function WithParentList(e: ElementEntry, ps: seq<string>): ElementEntry
  {
    e.(parents := SortBy(ps, Identity))
  }

  /** The final loop: each name that has parents and a record gets the
      sorted list of its parents. */
  function WithParents(elements: map<string, ElementEntry>, parents: Parents): map<string, ElementEntry>
  {
    map k | k in elements :: if k in parents then WithParentList(elements[k], parents[k]) else elements[k]
  }

  /** What `get_elements` returns: the schema is rendered once to fill the
      namespace table, then the definitions are walked. */
  function Elements(schema: Node, baseline: Node, deprecated: set<string>, depAttrs: set<(string, string)>)
    : Result<map<string, ElementEntry>, RenderError>
  {
    var top := Render(deprecated, map[], schema);
    match top.value
    case Failure(e) => Failure(e)
    case Success(_) =>
      var built := Definitions(deprecated, top.ns, ElementDefs(schema), baseline, depAttrs, Table(map[], map[]));
      match built.value
      case Failure(e) => Failure(e)
      case Success(t) => Success(WithParents(t.elements, t.parents))
  }

  // ---------------------------------------------------------------------
  // the loops

  method CollectAttributes(rnc: Renderer.CompactRenderer, ename: string, element: Node, baseline: Node,
                           depAttrs: set<(string, string)>) returns (r: Result<seq<AttributeEntry>, RenderError>)
    modifies rnc
    ensures AttributeEntries(rnc.deprecated, old(rnc.nsnames), ename, AttributeSites(element), baseline, depAttrs)
            == Step(r, rnc.nsnames)
  {
    var sites := AttributeSites(element);
    var attrs: seq<AttributeEntry> := [];
    ghost var whole := AttributeEntries(rnc.deprecated, rnc.nsnames, ename, sites, baseline, depAttrs);
    assert sites[0..] == sites;
    assert PrependAll(attrs, whole) == whole by {
      if whole.value.Success? { assert attrs + whole.value.value == whole.value.value; }
    }
    for k := 0 to |sites|
      invariant PrependAll(attrs, AttributeEntries(rnc.deprecated, rnc.nsnames, ename, sites[k..], baseline, depAttrs)) == whole
    {
      assert sites[k..][1..] == sites[k + 1..];
      var found := CollectAttribute(rnc, ename, sites[k..], baseline, depAttrs);
      if found.Failure? {
        return Failure(found.error);
      }
      ghost var rest := AttributeEntries(rnc.deprecated, rnc.nsnames, ename, sites[k + 1..], baseline, depAttrs);
      PrependAllTwice(attrs, found.value, rest);
      attrs := attrs + found.value;
    }
    assert sites[|sites|..] == [];
    assert attrs + [] == attrs;
    r := Success(attrs);
  }

  /** One turn of the attribute loop, on the first of the remaining sites:
      an ignored name adds nothing, any other adds its record, and the
      rendering of the first choice may fail. */
  method CollectAttribute(rnc: Renderer.CompactRenderer, ename: string, sites: seq<Site>, baseline: Node,
                          depAttrs: set<(string, string)>) returns (r: Result<seq<AttributeEntry>, RenderError>)
    requires sites != []
    modifies rnc
    ensures AttributeEntries(rnc.deprecated, old(rnc.nsnames), ename, sites, baseline, depAttrs)
            == if r.Failure? then Step(r, rnc.nsnames)
               else PrependAll(r.value, AttributeEntries(rnc.deprecated, rnc.nsnames, ename, sites[1..], baseline, depAttrs))
  {
    var a := sites[0].node;
    if NameOf(a) in IgnoredAttributes {
      ghost var rest := AttributeEntries(rnc.deprecated, rnc.nsnames, ename, sites[1..], baseline, depAttrs);
      assert PrependAll([], rest) == rest by {
        if rest.value.Success? { assert [] + rest.value.value == rest.value.value; }
      }
      return Success([]);
    }
    var rendering: Option<Option<string>> := None;
    if ChoiceValues(a) != [] {
      var v := rnc.Render(a.children[0]);
      if v.Failure? {
        return Failure(v.error);
      }
      rendering := Some(v.value);
    }
    r := Success([AttributeEntryOf(ename, sites[0], baseline, depAttrs, rendering)]);
  }

  method AddParents(parents: Parents, names: seq<string>, ename: string) returns (r: Parents)
    ensures r == AddParent(parents, names, ename)
  {
    r := parents;
    for i := 0 to |names|
      invariant AddParent(r, names[i..], ename) == AddParent(parents, names, ename)
    {
      assert names[i..][0] == names[i] && names[i..][1..] == names[i + 1..];
      var c := names[i];
      var known := if c in r then r[c] else [];
      r := r[c := if ename in known then known else known + [ename]];
    }
    assert names[|names|..] == [];
  }

  method CollectChildren(rnc: Renderer.CompactRenderer, ename: string, element: Node, parents: Parents)
    returns (r: Result<Kids, RenderError>)
    modifies rnc
    ensures ChildEntries(rnc.deprecated, old(rnc.nsnames), ename, RefNames(element), element.children, parents)
            == Step(r, rnc.nsnames)
  {
    var cs := element.children;
    var kids: seq<ChildEntry> := [];
    var ps := parents;
    ghost var whole := ChildEntries(rnc.deprecated, rnc.nsnames, ename, RefNames(element), cs, parents);
    assert cs[0..] == cs;
    assert PrependKids(kids, whole) == whole by {
      if whole.value.Success? { assert kids + whole.value.value.children == whole.value.value.children; }
    }
    for k := 0 to |cs|
      invariant PrependKids(kids, ChildEntries(rnc.deprecated, rnc.nsnames, ename, RefNames(element), cs[k..], ps)) == whole
    {
      var c := cs[k];
      assert cs[k..][0] == c && cs[k..][1..] == cs[k + 1..];
      if Qualifies(c) {
        var v := rnc.Render(c);
        if v.Failure? {
          return Failure(v.error);
        }
        var cnames := RefNames(element);
        ps := AddParents(ps, cnames, ename);
        ghost var rest := ChildEntries(rnc.deprecated, rnc.nsnames, ename, RefNames(element), cs[k + 1..], ps);
        PrependKidsTwice(kids, [ChildEntry(c, v.value)], rest);
        kids := kids + [ChildEntry(c, v.value)];
      }
    }
    assert cs[|cs|..] == [];
    assert kids + [] == kids;
    r := Success(Kids(kids, ps));
  }

  method SetParents(elements: map<string, ElementEntry>, parents: Parents) returns (r: map<string, ElementEntry>)
    ensures r == WithParents(elements, parents)
  {
    r := elements;
    var todo := parents.Keys;
    while todo != {}
      invariant todo <= parents.Keys
      invariant r.Keys == elements.Keys
      invariant forall k :: k in r ==>
                  r[k] == if k in parents && k !in todo then WithParentList(elements[k], parents[k]) else elements[k]
      decreases todo
    {
      var k :| k in todo;
      if k in r {
        r := r[k := WithParentList(r[k], parents[k])];
      }
      todo := todo - {k};
    }
    assert forall k :: k in r ==> r[k] == WithParents(elements, parents)[k];
  }

  /** `get_elements()`: the catalog, or the failure of a rendering. */
  method GetElements(schema: Node, baseline: Node, deprecated: set<string>, depAttrs: set<(string, string)>)
    returns (r: Result<map<string, ElementEntry>, RenderError>)
    ensures r == Elements(schema, baseline, deprecated, depAttrs)
  {
    var elements: map<string, ElementEntry> := map[];
    var parents: Parents := map[];
    var edefs := ElementDefs(schema);
    var rnc := new Renderer.CompactRenderer(deprecated);
    var top := rnc.Render(schema);
    if top.Failure? {
      return Failure(top.error);
    }
    ghost var whole := Definitions(deprecated, rnc.nsnames, edefs, baseline, depAttrs, Table(map[], map[]));
    for i := 0 to |edefs|
      invariant rnc.deprecated == deprecated
      invariant Definitions(deprecated, rnc.nsnames, edefs[i..], baseline, depAttrs, Table(elements, parents)) == whole
    {
      assert edefs[i..][0] == edefs[i] && edefs[i..][1..] == edefs[i + 1..];
      var element := edefs[i];
      var ename := NameOf(element);
      var attrs := CollectAttributes(rnc, ename, element, baseline, depAttrs);
      if attrs.Failure? {
        return Failure(attrs.error);
      }
      var kids := CollectChildren(rnc, ename, element, parents);
      if kids.Failure? {
        return Failure(kids.error);
      }
      elements := elements[ename := ElementEntryOf(!DefinesElement(baseline, ename), attrs.value, kids.value.children)];
      parents := kids.value.parents;
    }
    assert edefs[|edefs|..] == [];
    var finished := SetParents(elements, parents);
    r := Success(finished);
  }
}
