/** Worked renderings of small pattern trees, one per documented behaviour
    of the compact-syntax renderer. */
module CompactExamples {
  import opened Wrappers
  import opened Strings
  import opened Pattern
  import opened Compact
  function ValueNode(s: string): Node { Node(Value, map[], [], Some(s), []) }

  lemma ValueRendering(deprecated: set<string>, ns: NsNames, s: string)
    ensures Render(deprecated, ns, ValueNode(s)) == Rendered(Success(Some("\"" + s + "\"")), ns)
  {
  }

  lemma RenderAllCons(deprecated: set<string>, ns: NsNames, c: Node, cs: seq<Node>, v: Option<string>, vs: seq<Option<string>>)
    requires Render(deprecated, ns, c) == Rendered(Success(v), ns)
    requires RenderAll(deprecated, ns, cs) == RenderedAll(Success(vs), ns)
    ensures RenderAll(deprecated, ns, [c] + cs) == RenderedAll(Success([v] + vs), ns)
  {
    assert ([c] + cs)[0] == c;
    assert ([c] + cs)[1..] == cs;
  }

  lemma GroupRendering(deprecated: set<string>, ns: NsNames, n: Node, vs: seq<Option<string>>)
    requires IsGroup(n.tag)
    requires RenderAll(deprecated, ns, n.children) == RenderedAll(Success(vs), ns)
    ensures Render(deprecated, ns, n) == Rendered(GroupText(n, vs, ns), ns)
  {
  }

  const Yes: string := "\"yes\""
  const No: string := "\"no\""
  const Maybe: string := "\"maybe\""

  lemma ThreeValuesRendered(deprecated: set<string>, ns: NsNames)
    ensures RenderAll(deprecated, ns, [ValueNode("yes"), ValueNode("no"), ValueNode("maybe")])
            == RenderedAll(Success([Some(Yes), Some(No), Some(Maybe)]), ns)
  {
    ValueRendering(deprecated, ns, "yes");
    ValueRendering(deprecated, ns, "no");
    ValueRendering(deprecated, ns, "maybe");
    assert "\"" + "yes" + "\"" == Yes;
    assert "\"" + "no" + "\"" == No;
    assert "\"" + "maybe" + "\"" == Maybe;
    RenderAllCons(deprecated, ns, ValueNode("maybe"), [], Some(Maybe), []);
    assert [ValueNode("maybe")] + [] == [ValueNode("maybe")];
    assert [Some(Maybe)] + [] == [Some(Maybe)];
    RenderAllCons(deprecated, ns, ValueNode("no"), [ValueNode("maybe")], Some(No), [Some(Maybe)]);
    assert [ValueNode("no")] + [ValueNode("maybe")] == [ValueNode("no"), ValueNode("maybe")];
    assert [Some(No)] + [Some(Maybe)] == [Some(No), Some(Maybe)];
    RenderAllCons(deprecated, ns, ValueNode("yes"), [ValueNode("no"), ValueNode("maybe")], Some(Yes), [Some(No), Some(Maybe)]);
    assert [ValueNode("yes")] + [ValueNode("no"), ValueNode("maybe")] == [ValueNode("yes"), ValueNode("no"), ValueNode("maybe")];
    assert [Some(Yes)] + [Some(No), Some(Maybe)] == [Some(Yes), Some(No), Some(Maybe)];
  }

  lemma ThreeValuesJoined()
    ensures Join(" | ", Present([Some(Yes), Some(No), Some(Maybe)])) == "\"yes\" | \"no\" | \"maybe\""
  {
    var vs := [Some(Yes), Some(No), Some(Maybe)];
    assert vs[1..] == [Some(No), Some(Maybe)] && vs[1..][1..] == [Some(Maybe)] && vs[1..][1..][1..] == [];
    assert Present(vs[1..][1..]) == [Maybe];
    assert Present(vs[1..]) == [No, Maybe];
    assert Present(vs) == [Yes, No, Maybe];
    var parts := [Yes, No, Maybe];
    assert parts[1..] == [No, Maybe] && parts[1..][1..] == [Maybe];
    assert Join(" | ", parts[1..]) == No + " | " + Maybe;
    assert Join(" | ", parts) == Yes + " | " + (No + " | " + Maybe);
  }

  lemma ThreeValuesUnbroken()
    ensures BreakLines("( \"yes\" | \"no\" | \"maybe\" )", '|') == "( \"yes\" | \"no\" | \"maybe\" )"
  {
    var s := "( \"yes\" | \"no\" | \"maybe\" )";
    var front := "( \"yes\" | \"no\" | \"maybe\" ";
    assert ')' !in front;
    assert s == front + ")";
    forall i | 0 <= i < |s| - 1 ensures s[i] != ')' {
      assert s[i] == front[i];
    }
    BreakLinesNoJoint(s, '|');
  }

  /** Three literal values: wrapped, because there is more than one child. */
  lemma ChoiceOfThreeValues(deprecated: set<string>, ns: NsNames)
    ensures Render(deprecated, ns, Node(Choice, map[], [ValueNode("yes"), ValueNode("no"), ValueNode("maybe")], None, [])).value
            == Success(Some("( \"yes\" | \"no\" | \"maybe\" )"))
  {
    var n := Node(Choice, map[], [ValueNode("yes"), ValueNode("no"), ValueNode("maybe")], None, []);
    var vs := [Some(Yes), Some(No), Some(Maybe)];
    ThreeValuesRendered(deprecated, ns);
    GroupRendering(deprecated, ns, n, vs);
    ThreeValuesAlternation();
  }

  lemma ThreeValuesAlternation()
    ensures Alternation(" | ", '|', 3, [Some(Yes), Some(No), Some(Maybe)]) == "( \"yes\" | \"no\" | \"maybe\" )"
  {
    ThreeValuesJoined();
    assert "( " + "\"yes\" | \"no\" | \"maybe\"" + " )" == "( \"yes\" | \"no\" | \"maybe\" )";
    ThreeValuesUnbroken();
  }

  function RefNode(s: string): Node { Node(Ref, map["name" := s], [], None, []) }

  /** A reference whose name is a reserved word is escaped. */
  lemma RefToKeyword(deprecated: set<string>, ns: NsNames)
    requires "text" !in deprecated
    ensures Render(deprecated, ns, RefNode("text")).value == Success(Some("\\text"))
  {
    var n := RefNode("text");
    assert Name(n) == Some("text");
    assert Render(deprecated, ns, n).value == Success(RefText(deprecated, Name(n)));
    assert "text" in Keywords;
    assert "\\" + "text" == "\\text";
  }

  /** One child: no parentheses. */
  lemma ZeroOrMoreOfOneRef(deprecated: set<string>, ns: NsNames)
    requires "xref" !in deprecated
    ensures Render(deprecated, ns, Node(ZeroOrMore, map[], [RefNode("xref")], None, [])).value == Success(Some("xref *"))
  {
    var x := RefNode("xref");
    assert Name(x) == Some("xref");
    assert "xref" !in Keywords;
    assert Render(deprecated, ns, x) == Rendered(Success(Some("xref")), ns);
    RenderAllCons(deprecated, ns, x, [], Some("xref"), []);
    assert [x] + [] == [x];
    assert [Some("xref")] + [] == [Some("xref")];
    assert Present([Some("xref")]) == ["xref"];
    assert Join(", ", ["xref"]) == "xref";
    assert "xref" + " *" == "xref *";
  }

  /** Two children that both render empty: the parentheses count child
      nodes, so the result is not empty. */
  lemma TwoDeprecatedRefs(deprecated: set<string>, ns: NsNames)
    requires "a" in deprecated && "b" in deprecated
    ensures Render(deprecated, ns, Node(ZeroOrMore, map[], [RefNode("a"), RefNode("b")], None, [])).value == Success(Some("(  ) *"))
  {
    assert Name(RefNode("a")) == Some("a") && Name(RefNode("b")) == Some("b");
    assert Render(deprecated, ns, RefNode("a")) == Rendered(Success(Some("")), ns);
    assert Render(deprecated, ns, RefNode("b")) == Rendered(Success(Some("")), ns);
    RenderAllCons(deprecated, ns, RefNode("b"), [], Some(""), []);
    assert [RefNode("b")] + [] == [RefNode("b")];
    assert [Some("")] + [] == [Some("")];
    RenderAllCons(deprecated, ns, RefNode("a"), [RefNode("b")], Some(""), [Some("")]);
    assert [RefNode("a")] + [RefNode("b")] == [RefNode("a"), RefNode("b")];
    assert [Some("")] + [Some("")] == [Some(""), Some("")];
    assert Present([Some(""), Some("")]) == [];
    assert Join(", ", []) == "";
    assert "( " + "" + " )" + " *" == "(  ) *";
  }

  /** A default value of "" still gets its annotation line. */
  lemma AttributeWithEmptyDefault(deprecated: set<string>, ns: NsNames)
    requires ns == map[AnnotationsNs := Some("a")]
    ensures Render(deprecated, ns, Node(Attribute, map["name" := "x", DefaultValueKey := ""], [], None, [])).value
            == Success(Some("\n    [ a:defaultValue = \"\" ]\n    attribute x { text }"))
  {
    var n := Node(Attribute, map["name" := "x", DefaultValueKey := ""], [], None, []);
    EmptyDefaultAttributeNode(deprecated, ns, n);
    EmptyDefaultText(ns);
  }

  lemma EmptyDefaultAttributeNode(deprecated: set<string>, ns: NsNames, n: Node)
    requires n == Node(Attribute, map["name" := "x", DefaultValueKey := ""], [], None, [])
    ensures Render(deprecated, ns, n).value == AttributeText(Some("x"), Some(""), ns, 0, [])
  {
    assert "name" != DefaultValueKey;
    assert Name(n) == Some("x");
    assert Attr(n, DefaultValueKey) == Some("");
    assert RenderAll(deprecated, ns, []) == RenderedAll(Success([]), ns);
  }

  lemma EmptyDefaultText(ns: NsNames)
    requires ns == map[AnnotationsNs := Some("a")]
    ensures AttributeText(Some("x"), Some(""), ns, 0, []) == Success(Some("\n    [ a:defaultValue = \"\" ]\n    attribute x { text }"))
  {
    EmptyDefaultLine();
    PlainDeclaration();
    EmptyDefaultJoined();
  }

  lemma EmptyDefaultLine()
    ensures DefaultLine(Some("a"), "") == "\n    [ a:defaultValue = \"\" ]\n    "
  {
    assert "\n    [ " + "a" + ":defaultValue = \"" + "" + "\" ]\n    " == "\n    [ a:defaultValue = \"\" ]\n    ";
  }

  lemma PlainDeclaration()
    ensures "attribute " + Show(Some("x")) + " { " + AttributeBody(0, []) + " }" == "attribute x { text }"
  {
    assert "attribute " + "x" + " { " + "text" + " }" == "attribute x { text }";
  }

  lemma EmptyDefaultJoined()
    ensures "\n    [ a:defaultValue = \"\" ]\n    " + "attribute x { text }" == "\n    [ a:defaultValue = \"\" ]\n    attribute x { text }"
  {
  }

  /** A combine mode other than choice or interleave is an error. */
  lemma StartWithUnknownCombine(deprecated: set<string>, ns: NsNames)
    ensures Render(deprecated, ns, Node(Start, map["combine" := "merge"], [], None, [])).value == Failure(UnsupportedCombine("merge"))
  {
    var n := Node(Start, map["combine" := "merge"], [], None, []);
    assert Attr(n, "combine") == Some("merge");
    assert "merge" != "choice" && "merge" != "interleave";
  }

  /** Every ".rng" is replaced, not only a final one. */
  lemma IncludeEveryOccurrence(deprecated: set<string>, ns: NsNames)
    ensures Render(deprecated, ns, Node(Include, map["href" := "a.rng.rng"], [], None, [])).value == Success(Some("include \"a.rnc.rnc\""))
  {
    IncludeNode(deprecated, ns, Node(Include, map["href" := "a.rng.rng"], [], None, []), "a.rng.rng");
    IncludeTwoSuffixes();
  }

  lemma IncludeNode(deprecated: set<string>, ns: NsNames, n: Node, h: string)
    requires n.tag == Include && n.attrs == map["href" := h]
    ensures Render(deprecated, ns, n).value == IncludeText(Some(h))
  {
    assert Attr(n, "href") == Some(h);
  }

  lemma IncludeTwoSuffixes()
    ensures IncludeText(Some("a.rng.rng")) == Success(Some("include \"a.rnc.rnc\""))
  {
    TwoSuffixesReplaced();
    assert "include \"" + "a.rnc.rnc" + "\"" == "include \"a.rnc.rnc\"";
  }

  lemma TwoSuffixesReplaced()
    ensures ReplaceAll("a.rng.rng", ".rng", ".rnc") == "a.rnc.rnc"
  {
    var h := "a.rng.rng";
    OneSuffixReplaced();
    assert h[1..] == ".rng.rng";
    assert h[..4][0] == 'a';
    assert ReplaceAll(h, ".rng", ".rnc") == "a" + ReplaceAll(".rng.rng", ".rng", ".rnc");
    assert "a" + ".rnc.rnc" == "a.rnc.rnc";
  }

  lemma OneSuffixReplaced()
    ensures ReplaceAll(".rng.rng", ".rng", ".rnc") == ".rnc.rnc"
  {
    var h := ".rng.rng";
    assert h[..4] == ".rng" && h[4..] == ".rng";
    assert ".rng"[..4] == ".rng" && ".rng"[4..] == [];
    assert ReplaceAll(".rng", ".rng", ".rnc") == ".rnc" + ReplaceAll([], ".rng", ".rnc");
    assert ReplaceAll(h, ".rng", ".rnc") == ".rnc" + ReplaceAll(".rng", ".rng", ".rnc");
  }
}
