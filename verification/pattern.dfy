/** The RELAX NG pattern tree that doc.py reads through lxml, and the
    structural searches that stand for its XPath queries. */
module Pattern {
  import opened Wrappers

  /** The tag of a node with the RELAX NG namespace removed. Tags of other
      namespaces, and RELAX NG tags that have no handler, are `Unknown`. */
  datatype Tag =
    | Grammar | Define | Element | Attribute | Ref
    | Choice | Optional | ZeroOrMore | OneOrMore | Interleave
    | Text | Empty | Value | Data | Start | Include
    | Comment
    | Unknown(name: string)

  /** One entry of a node's in-scope namespace map: a prefix (None for the
      default namespace) bound to a URI. */
  datatype NsDecl = NsDecl(prefix: Option<string>, uri: string)

  /** An XML node of the schema: its tag, its XML attributes (keys in
      `{uri}local` form for namespaced ones), its child nodes in document
      order (comments included), its text and its namespace map in the
      order lxml lists it. */
  datatype Node = Node(
    tag: Tag,
    attrs: map<string, string>,
    children: seq<Node>,
    text: Option<string>,
    nsmap: seq<NsDecl>)

  /** `e.get(key)` */
  function Attr(n: Node, key: string): Option<string>
  {
    if key in n.attrs then Some(n.attrs[key]) else None
  }

  function Name(n: Node): Option<string> { Attr(n, "name") }

  /** A node met while walking a subtree, with the tag of its parent
      (`a.getparent().tag`). */
  datatype Site = Site(node: Node, parentTag: Tag)

  /** All nodes strictly below a parent with tag `parentTag` whose children
      are `cs`, in document order, as a descendant query sees them. */
  function DescendantsOf(cs: seq<Node>, parentTag: Tag): seq<Site>
    decreases cs
  {
    if cs == [] then []
    else [Site(cs[0], parentTag)] + DescendantsOf(cs[0].children, cs[0].tag) + DescendantsOf(cs[1..], parentTag)
  }

  function Descendants(n: Node): seq<Site>
  {
    DescendantsOf(n.children, n.tag)
  }

  function SitesTagged(ss: seq<Site>, t: Tag): (r: seq<Site>)
    ensures forall i :: 0 <= i < |r| ==> r[i].node.tag == t && r[i] in ss
    ensures forall s :: s in ss && s.node.tag == t ==> s in r
  {
    if ss == [] then []
    else (if ss[0].node.tag == t then [ss[0]] else []) + SitesTagged(ss[1..], t)
  }

  /** `element.xpath('.//x:attribute')`, each with its parent's tag. */
  function AttributeSites(n: Node): (r: seq<Site>)
    ensures forall i :: 0 <= i < |r| ==> r[i].node.tag == Attribute
  {
    SitesTagged(Descendants(n), Attribute)
  }

  function ChildrenTagged(cs: seq<Node>, t: Tag): (r: seq<Node>)
    ensures forall i :: 0 <= i < |r| ==> r[i].tag == t && r[i] in cs
    ensures forall c :: c in cs && c.tag == t ==> c in r
  {
    if cs == [] then []
    else (if cs[0].tag == t then [cs[0]] else []) + ChildrenTagged(cs[1..], t)
  }

  function DefineElements(cs: seq<Node>): (r: seq<Node>)
    ensures forall i :: 0 <= i < |r| ==> r[i].tag == Element
  {
    if cs == [] then []
    else (if cs[0].tag == Define then ChildrenTagged(cs[0].children, Element) else []) + DefineElements(cs[1..])
  }

  /** `/x:grammar/x:define/x:element`: the element definitions at the top of
      the grammar, in document order. */
  function ElementDefs(root: Node): (r: seq<Node>)
    ensures forall i :: 0 <= i < |r| ==> r[i].tag == Element
    ensures root.tag != Grammar ==> r == []
  {
    if root.tag == Grammar then DefineElements(root.children) else []
  }

  /** `x:choice/x:value` below an attribute node. */
  function ChoiceValues(a: Node): (r: seq<Node>)
    ensures a.children == [] ==> r == []
  {
    ChoiceValuesOf(ChildrenTagged(a.children, Choice))
  }

  function ChoiceValuesOf(choices: seq<Node>): seq<Node>
  {
    if choices == [] then [] else ChildrenTagged(choices[0].children, Value) + ChoiceValuesOf(choices[1..])
  }

  /** s is met below a parent with tag `parentTag` and children cs: its node
      is one of cs under that tag, or is met below one of cs. */
  predicate Within(cs: seq<Node>, parentTag: Tag, s: Site)
    decreases cs
  {
    exists i :: 0 <= i < |cs| && (s == Site(cs[i], parentTag) || Within(cs[i].children, cs[i].tag, s))
  }

  lemma WithinCons(cs: seq<Node>, parentTag: Tag, s: Site)
    requires cs != []
    ensures Within(cs, parentTag, s) <==>
            s == Site(cs[0], parentTag) || Within(cs[0].children, cs[0].tag, s) || Within(cs[1..], parentTag, s)
  {
    if Within(cs, parentTag, s) {
      var i :| 0 <= i < |cs| && (s == Site(cs[i], parentTag) || Within(cs[i].children, cs[i].tag, s));
      if i > 0 {
        assert cs[1..][i - 1] == cs[i];
      }
    }
    if Within(cs[1..], parentTag, s) {
      var i :| 0 <= i < |cs[1..]| && (s == Site(cs[1..][i], parentTag) || Within(cs[1..][i].children, cs[1..][i].tag, s));
      assert cs[1..][i] == cs[i + 1];
    }
  }

  /** The descendant walk meets exactly the sites below. */
  lemma {:induction false} DescendantsWithin(cs: seq<Node>, parentTag: Tag, s: Site)
    ensures s in DescendantsOf(cs, parentTag) <==> Within(cs, parentTag, s)
    decreases cs
  {
    if cs != [] {
      DescendantsWithin(cs[0].children, cs[0].tag, s);
      DescendantsWithin(cs[1..], parentTag, s);
      WithinCons(cs, parentTag, s);
    }
  }

  /** `.//x:attribute` finds exactly the attribute nodes below, each with
      the tag of its own parent. */
  lemma AttributeSitesExactly(n: Node, s: Site)
    ensures s in AttributeSites(n) <==> s.node.tag == Attribute && Within(n.children, n.tag, s)
  {
    DescendantsWithin(n.children, n.tag, s);
  }

  /** `x:define/x:element` finds exactly the element children of the
      `define` nodes among cs. */
  lemma {:induction false} DefineElementsExactly(cs: seq<Node>, d: Node)
    ensures d in DefineElements(cs) <==> exists df :: df in cs && df.tag == Define && d in df.children && d.tag == Element
    decreases cs
  {
    if cs != [] {
      DefineElementsExactly(cs[1..], d);
      assert forall df :: df in cs <==> df == cs[0] || df in cs[1..];
    }
  }

  /** The element definitions are exactly the `element` children of the
      `define` children of a grammar root. */
  lemma ElementDefsExactly(root: Node, d: Node)
    ensures d in ElementDefs(root) <==>
            root.tag == Grammar && exists df :: df in root.children && df.tag == Define && d in df.children && d.tag == Element
  {
    DefineElementsExactly(root.children, d);
  }

  lemma {:induction false} ChoiceValuesOfExactly(choices: seq<Node>, v: Node)
    ensures v in ChoiceValuesOf(choices) <==> exists c :: c in choices && v in c.children && v.tag == Value
    decreases choices
  {
    if choices != [] {
      ChoiceValuesOfExactly(choices[1..], v);
      assert forall c :: c in choices <==> c == choices[0] || c in choices[1..];
    }
  }

  /** `x:choice/x:value` finds exactly the `value` children of the `choice`
      children of the attribute. */
  lemma ChoiceValuesExactly(a: Node, v: Node)
    ensures v in ChoiceValues(a) <==> exists c :: c in a.children && c.tag == Choice && v in c.children && v.tag == Value
  {
    ChoiceValuesOfExactly(ChildrenTagged(a.children, Choice), v);
  }

  predicate IsRefTo(n: Node, c: string) { n.tag == Ref && Name(n) == Some(c) }

  /** The `name` values of the `ref` nodes among the sites, in order. */
  function RefNamesIn(ss: seq<Site>): (r: seq<string>)
    ensures forall c :: c in r <==> exists s :: s in ss && IsRefTo(s.node, c)
  {
    if ss == [] then []
    else
      var here := if ss[0].node.tag == Ref && Name(ss[0].node).Some? then [Name(ss[0].node).value] else [];
      assert forall s :: s in ss ==> s == ss[0] || s in ss[1..];
      here + RefNamesIn(ss[1..])
  }

  /** `element.xpath('.//x:ref/@name')`: names of the references anywhere
      below the node, in document order. */
  function RefNames(n: Node): seq<string>
  {
    RefNamesIn(Descendants(n))
  }

  /** A reference to c occurs somewhere in the trees cs, by structural
      recursion. */
  predicate RefBelow(cs: seq<Node>, c: string)
    decreases cs
  {
    cs != [] && (IsRefTo(cs[0], c) || RefBelow(cs[0].children, c) || RefBelow(cs[1..], c))
  }

  lemma {:induction false} DescendantsHaveRef(cs: seq<Node>, t: Tag, c: string)
    ensures (exists s :: s in DescendantsOf(cs, t) && IsRefTo(s.node, c)) <==> RefBelow(cs, c)
    decreases cs
  {
    if cs != [] {
      var d := DescendantsOf(cs, t);
      var d1 := DescendantsOf(cs[0].children, cs[0].tag);
      var d2 := DescendantsOf(cs[1..], t);
      assert d == [Site(cs[0], t)] + d1 + d2;
      DescendantsHaveRef(cs[0].children, cs[0].tag, c);
      DescendantsHaveRef(cs[1..], t, c);
      if RefBelow(cs, c) {
        if IsRefTo(cs[0], c) {
          assert Site(cs[0], t) in d;
        } else if RefBelow(cs[0].children, c) {
          var s :| s in d1 && IsRefTo(s.node, c);
          assert s in d;
        } else {
          var s :| s in d2 && IsRefTo(s.node, c);
          assert s in d;
        }
      }
      if exists s :: s in d && IsRefTo(s.node, c) {
        var s :| s in d && IsRefTo(s.node, c);
        assert s == Site(cs[0], t) || s in d1 || s in d2;
      }
    }
  }

  /** The names the reference query yields are exactly the names of the
      `ref` nodes found anywhere below the node. */
  lemma RefNamesBelow(n: Node, c: string)
    ensures c in RefNames(n) <==> RefBelow(n.children, c)
  {
    DescendantsHaveRef(n.children, n.tag, c);
  }

  /** `/x:grammar/x:define/x:element[@name='<e>']` is not empty. */
  predicate DefinesElement(root: Node, e: string)
  {
    exists d :: d in ElementDefs(root) && Name(d) == Some(e)
  }

  /** `/x:grammar/x:define/x:element[@name='<e>']//x:attribute[@name='<a>']`
      is not empty. */
  predicate DefinesAttribute(root: Node, e: string, a: string)
  {
    exists d, s :: d in ElementDefs(root) && Name(d) == Some(e) && s in AttributeSites(d) && Name(s.node) == Some(a)
  }
}
