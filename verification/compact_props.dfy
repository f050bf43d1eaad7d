/** Properties of the compact-syntax renderer that relate several renderings. */
module CompactProps {
  import opened Wrappers
  import opened Strings
  import opened Pattern
  import opened Compact

  /** No node of the trees cs is a `grammar`. */
  predicate NoGrammarIn(cs: seq<Node>)
    decreases cs
  {
    cs == [] || (cs[0].tag != Grammar && NoGrammarIn(cs[0].children) && NoGrammarIn(cs[1..]))
  }

  /** Only `grammar` writes the namespace table: rendering a tree that holds
      no grammar node leaves it as it was, whatever the outcome. */
  lemma {:induction false} RenderKeepsNs(deprecated: set<string>, ns: NsNames, n: Node)
    requires n.tag != Grammar && NoGrammarIn(n.children)
    ensures Render(deprecated, ns, n).ns == ns
    decreases n, 1
  {
    match n.tag
    case Start =>
      if CombineOp(Attr(n, "combine")).Success? {
        RenderAllKeepsNs(deprecated, ns, n.children);
      }
    case Define | Element | Attribute | Choice | Optional | ZeroOrMore | OneOrMore | Interleave =>
      RenderAllKeepsNs(deprecated, ns, n.children);
    case _ =>
  }

  lemma {:induction false} RenderAllKeepsNs(deprecated: set<string>, ns: NsNames, cs: seq<Node>)
    requires NoGrammarIn(cs)
    ensures RenderAll(deprecated, ns, cs).ns == ns
    decreases cs, 0
  {
    if cs != [] {
      RenderKeepsNs(deprecated, ns, cs[0]);
      RenderAllKeepsNs(deprecated, ns, cs[1..]);
    }
  }

  /** `interleave` has no `return`: when its children render, it renders
      as None, which an enclosing join leaves out. */
  lemma InterleaveRendersNone(deprecated: set<string>, ns: NsNames, n: Node)
    requires n.tag == Interleave
    ensures Render(deprecated, ns, n).value.Success? ==> Render(deprecated, ns, n).value == Success(None)
    ensures Render(deprecated, ns, n).value.Failure? <==> RenderAll(deprecated, ns, n.children).values.Failure?
  {
  }

  lemma {:induction false} PresentSkipsEmpty(vs: seq<Option<string>>, k: nat)
    requires k <= |vs|
    ensures Present(vs[..k] + [Some("")] + vs[k..]) == Present(vs)
  {
    if k > 0 {
      PresentSkipsEmpty(vs[1..], k - 1);
      assert (vs[..k] + [Some("")] + vs[k..])[1..] == vs[1..][..k - 1] + [Some("")] + vs[1..][k - 1..];
      assert vs == [vs[0]] + vs[1..];
    } else {
      assert vs[..k] + [Some("")] + vs[k..] == [Some("")] + vs;
    }
  }

  /** b is a with an empty rendering inserted at k: the same outcome
      otherwise, and the same table. */
  predicate InsertsEmpty(a: RenderedAll, b: RenderedAll, k: nat)
  {
    b.ns == a.ns &&
    (a.values.Failure? ==> b.values == a.values) &&
    (a.values.Success? ==> k <= |a.values.value| && b.values == Success(a.values.value[..k] + [Some("")] + a.values.value[k..]))
  }

  /** Rendering a list of children with a deprecated `ref` inserted at k
      gives the same renderings with "" inserted at k, and the same table. */
  lemma {:induction false} RenderAllWithDeprecatedRef(deprecated: set<string>, ns: NsNames, cs: seq<Node>, k: nat, d: Node)
    requires k <= |cs|
    requires d.tag == Ref && Name(d).Some? && Name(d).value in deprecated
    ensures InsertsEmpty(RenderAll(deprecated, ns, cs), RenderAll(deprecated, ns, cs[..k] + [d] + cs[k..]), k)
    decreases cs
  {
    if k == 0 {
      DeprecatedRefFirst(deprecated, ns, cs, d);
    } else {
      var first := Render(deprecated, ns, cs[0]);
      if first.value.Success? {
        RenderAllWithDeprecatedRef(deprecated, first.ns, cs[1..], k - 1, d);
      }
      DeprecatedRefLater(deprecated, ns, cs, k, d);
    }
  }

  lemma DeprecatedRefFirst(deprecated: set<string>, ns: NsNames, cs: seq<Node>, d: Node)
    requires d.tag == Ref && Name(d).Some? && Name(d).value in deprecated
    ensures InsertsEmpty(RenderAll(deprecated, ns, cs), RenderAll(deprecated, ns, cs[..0] + [d] + cs[0..]), 0)
  {
    var cs' := cs[..0] + [d] + cs[0..];
    assert cs' == [d] + cs;
    assert cs'[1..] == cs;
    assert Render(deprecated, ns, d) == Rendered(Success(Some("")), ns);
    var a := RenderAll(deprecated, ns, cs);
    if a.values.Success? {
      assert a.values.value[..0] + [Some("")] + a.values.value[0..] == [Some("")] + a.values.value;
    }
  }

  lemma DeprecatedRefLater(deprecated: set<string>, ns: NsNames, cs: seq<Node>, k: nat, d: Node)
    requires 0 < k <= |cs|
    requires var first := Render(deprecated, ns, cs[0]);
             first.value.Success? ==>
               InsertsEmpty(RenderAll(deprecated, first.ns, cs[1..]),
                            RenderAll(deprecated, first.ns, cs[1..][..k - 1] + [d] + cs[1..][k - 1..]), k - 1)
    ensures InsertsEmpty(RenderAll(deprecated, ns, cs), RenderAll(deprecated, ns, cs[..k] + [d] + cs[k..]), k)
  {
    var cs' := cs[..k] + [d] + cs[k..];
    assert cs'[0] == cs[0];
    assert cs'[1..] == cs[1..][..k - 1] + [d] + cs[1..][k - 1..];
    var first := Render(deprecated, ns, cs[0]);
    RenderAllUnfold(deprecated, ns, cs);
    RenderAllUnfold(deprecated, ns, cs');
    InsertsEmptyCons(first, RenderAll(deprecated, first.ns, cs[1..]), RenderAll(deprecated, first.ns, cs'[1..]), k);
  }

  /** RenderAll renders the first child, then the others with the table
      the first left. */
  function ConsAll(first: Rendered, rest: RenderedAll): (r: RenderedAll)
    ensures first.value.Failure? ==> r == RenderedAll(Failure(first.value.error), first.ns)
  {
    match first.value
    case Failure(e) => RenderedAll(Failure(e), first.ns)
    case Success(v) =>
      match rest.values
      case Failure(e) => RenderedAll(Failure(e), rest.ns)
      case Success(vs) => RenderedAll(Success([v] + vs), rest.ns)
  }

  lemma RenderAllUnfold(deprecated: set<string>, ns: NsNames, cs: seq<Node>)
    requires cs != []
    ensures RenderAll(deprecated, ns, cs)
            == ConsAll(Render(deprecated, ns, cs[0]), RenderAll(deprecated, Render(deprecated, ns, cs[0]).ns, cs[1..]))
  {
  }

  lemma InsertsEmptyCons(first: Rendered, a: RenderedAll, b: RenderedAll, k: nat)
    requires 0 < k
    requires first.value.Success? ==> InsertsEmpty(a, b, k - 1)
    ensures InsertsEmpty(ConsAll(first, a), ConsAll(first, b), k)
  {
    if first.value.Success? && a.values.Success? {
      var v, rv := first.value.value, a.values.value;
      assert ([v] + rv)[..k] + [Some("")] + ([v] + rv)[k..] == [v] + (rv[..k - 1] + [Some("")] + rv[k - 1..]);
    }
  }

  /** A `ref` to a deprecated element leaves no trace, not even a stray
      separator: inserting one among the children of a node that already
      has two or more children does not change its rendering. */
  lemma DeprecatedRefInvisible(deprecated: set<string>, ns: NsNames, n: Node, k: nat, d: Node)
    requires IsGroup(n.tag) && |n.children| >= 2 && k <= |n.children|
    requires d.tag == Ref && Name(d).Some? && Name(d).value in deprecated
    ensures Render(deprecated, ns, n.(children := n.children[..k] + [d] + n.children[k..])) == Render(deprecated, ns, n)
  {
    var n' := n.(children := n.children[..k] + [d] + n.children[k..]);
    RenderAllWithDeprecatedRef(deprecated, ns, n.children, k, d);
    var a := RenderAll(deprecated, ns, n.children);
    if a.values.Success? {
      PresentSkipsEmpty(a.values.value, k);
      var vs := a.values.value;
      var vs' := vs[..k] + [Some("")] + vs[k..];
      GroupTextSamePresent(n, n', vs, vs', a.ns);
    }
  }

  /** Group handlers see their renderings only through `filter(None, …)`
      once a node has two or more children. */
  lemma GroupTextSamePresent(n: Node, n': Node, vs: seq<Option<string>>, vs': seq<Option<string>>, ns: NsNames)
    requires IsGroup(n.tag) && n'.tag == n.tag && n'.attrs == n.attrs
    requires |n.children| >= 2 && |n'.children| >= 2
    requires Present(vs') == Present(vs)
    ensures GroupText(n', vs', ns) == GroupText(n, vs, ns)
  {
    JoinEmptyIff(", ", Present(vs));
  }

  // ---------------------------------------------------------------------
  // the list of renderings

  /** Each rendering of the list is the rendering of its child under the
      table the children before it leave. */
  lemma {:induction false} RenderAllNth(deprecated: set<string>, ns: NsNames, cs: seq<Node>, i: nat)
    requires i < |cs|
    requires RenderAll(deprecated, ns, cs).values.Success?
    ensures Render(deprecated, RenderAll(deprecated, ns, cs[..i]).ns, cs[i]).value
            == Success(RenderAll(deprecated, ns, cs).values.value[i])
    decreases i
  {
    var first := Render(deprecated, ns, cs[0]);
    RenderAllUnfold(deprecated, ns, cs);
    if i == 0 {
      assert cs[..0] == [];
    } else {
      RenderAllNth(deprecated, first.ns, cs[1..], i - 1);
      RenderAllNthStep(deprecated, ns, cs, i);
    }
  }

  lemma RenderAllNthStep(deprecated: set<string>, ns: NsNames, cs: seq<Node>, i: nat)
    requires 0 < i < |cs|
    requires RenderAll(deprecated, ns, cs).values.Success?
    requires var first := Render(deprecated, ns, cs[0]);
             first.value.Success? && RenderAll(deprecated, first.ns, cs[1..]).values.Success? &&
             Render(deprecated, RenderAll(deprecated, first.ns, cs[1..][..i - 1]).ns, cs[1..][i - 1]).value
               == Success(RenderAll(deprecated, first.ns, cs[1..]).values.value[i - 1])
    ensures Render(deprecated, RenderAll(deprecated, ns, cs[..i]).ns, cs[i]).value
            == Success(RenderAll(deprecated, ns, cs).values.value[i])
  {
    var first := Render(deprecated, ns, cs[0]);
    assert cs[..i][0] == cs[0] && cs[..i][1..] == cs[1..][..i - 1];
    RenderAllUnfold(deprecated, ns, cs[..i]);
    RenderAllUnfold(deprecated, ns, cs);
  }

  lemma {:induction false} NoGrammarInPrefix(cs: seq<Node>, i: nat)
    requires i <= |cs| && NoGrammarIn(cs)
    ensures NoGrammarIn(cs[..i])
    decreases i
  {
    if i > 0 {
      NoGrammarInPrefix(cs[1..], i - 1);
      assert cs[..i][1..] == cs[1..][..i - 1];
    }
  }

  /** Without a grammar among the children, each rendering is the child's
      own rendering under the starting table. */
  lemma RenderAllNthPlain(deprecated: set<string>, ns: NsNames, cs: seq<Node>, i: nat)
    requires i < |cs| && NoGrammarIn(cs)
    requires RenderAll(deprecated, ns, cs).values.Success?
    ensures Render(deprecated, ns, cs[i]).value == Success(RenderAll(deprecated, ns, cs).values.value[i])
  {
    RenderAllNth(deprecated, ns, cs, i);
    NoGrammarInPrefix(cs, i);
    RenderAllKeepsNs(deprecated, ns, cs[..i]);
  }

  // ---------------------------------------------------------------------
  // define

  /** `define` writes its name, escaped as a reference would be, even when
      that name is deprecated, then the non-empty renderings of its
      children joined by ",\n", and a final line break. */
  lemma DefineRendering(deprecated: set<string>, ns: NsNames, n: Node)
    requires n.tag == Define && Name(n).Some?
    ensures var all := RenderAll(deprecated, ns, n.children);
            all.values.Success? ==>
              Render(deprecated, ns, n).value == Success(Some(Escape(Name(n).value) + " =\n  " + Join(",\n", Present(all.values.value)) + "\n"))
  {
  }

  // ---------------------------------------------------------------------
  // grammar

  /** After the namespace loop, a URI that the declarations name maps to the
      prefix of its last declaration; every other URI keeps its entry. */
  lemma {:induction false} RegisterLast(ns: NsNames, decls: seq<NsDecl>, u: string)
    ensures u in Register(ns, decls) <==> u in ns || exists i :: 0 <= i < |decls| && decls[i].uri == u
    ensures (exists i :: 0 <= i < |decls| && decls[i].uri == u) ==>
              exists i :: 0 <= i < |decls| && decls[i].uri == u && Register(ns, decls)[u] == decls[i].prefix &&
                forall j :: i < j < |decls| ==> decls[j].uri != u
    ensures (forall i :: 0 <= i < |decls| ==> decls[i].uri != u) && u in ns ==> Register(ns, decls)[u] == ns[u]
    decreases |decls|
  {
    if decls != [] {
      var ns' := ns[decls[0].uri := decls[0].prefix];
      RegisterLast(ns', decls[1..], u);
      if exists i :: 0 <= i < |decls[1..]| && decls[1..][i].uri == u {
        var i :| 0 <= i < |decls[1..]| && decls[1..][i].uri == u && Register(ns', decls[1..])[u] == decls[1..][i].prefix &&
                 forall j :: i < j < |decls[1..]| ==> decls[1..][j].uri != u;
        assert decls[i + 1] == decls[1..][i];
        forall j | i + 1 < j < |decls| ensures decls[j].uri != u {
          assert decls[j] == decls[1..][j - 1];
        }
      } else if decls[0].uri == u {
        forall j | 0 < j < |decls| ensures decls[j].uri != u {
          assert decls[j] == decls[1..][j - 1];
        }
      } else {
        forall i | 0 <= i < |decls| ensures decls[i].uri != u {
          if i > 0 {
            assert decls[i] == decls[1..][i - 1];
          }
        }
      }
    }
  }

  /** The namespace lines of a list of declarations are those of its parts,
      in order ... */
  lemma {:induction false} NamespaceLinesConcat(a: seq<NsDecl>, b: seq<NsDecl>)
    ensures NamespaceLines(a + b) == NamespaceLines(a) + NamespaceLines(b)
    decreases |a|
  {
    if a == [] {
      assert a + b == b;
    } else {
      assert (a + b)[1..] == a[1..] + b;
      NamespaceLinesConcat(a[1..], b);
    }
  }

  /** ... and a declaration gives the line `namespace <prefix> = "<uri>"`
      when its prefix is not empty, and nothing otherwise. */
  lemma NamespaceLinesOne(d: NsDecl)
    ensures Truthy(d.prefix) ==> NamespaceLines([d]) == "namespace " + d.prefix.value + " = \"" + d.uri + "\"\n"
    ensures !Truthy(d.prefix) ==> NamespaceLines([d]) == ""
  {
    assert [d][1..] == [];
  }

  predicate AllSome(vs: seq<Option<string>>)
  {
    forall i :: 0 <= i < |vs| ==> vs[i].Some?
  }

  /** The texts of renderings that are all present. */
  function Texts(vs: seq<Option<string>>): (r: seq<string>)
    requires AllSome(vs)
    ensures |r| == |vs| && forall i :: 0 <= i < |vs| ==> r[i] == vs[i].value
  {
    if vs == [] then [] else [vs[0].value] + Texts(vs[1..])
  }

  /** The child loop of `grammar` writes each child's text followed by a
      line break when every child renders to a text; a child rendering to
      None makes it fail, and so does a child that fails. */
  lemma {:induction false} GrammarBodyLines(deprecated: set<string>, ns: NsNames, cs: seq<Node>)
    ensures var all := RenderAll(deprecated, ns, cs);
            all.values.Success? && AllSome(all.values.value) ==>
              GrammarBody(deprecated, ns, cs) == Rendered(Success(Some(Unlines(Texts(all.values.value)))), all.ns)
    ensures var all := RenderAll(deprecated, ns, cs);
            all.values.Success? && !AllSome(all.values.value) ==> GrammarBody(deprecated, ns, cs).value == Failure(NoneInGrammar)
    ensures RenderAll(deprecated, ns, cs).values.Failure? ==> GrammarBody(deprecated, ns, cs).value.Failure?
    decreases cs
  {
    if cs != [] {
      var first := Render(deprecated, ns, cs[0]);
      if first.value.Success? {
        GrammarBodyLines(deprecated, first.ns, cs[1..]);
      }
      GrammarBodyStep(deprecated, ns, cs);
    }
  }

  lemma GrammarBodyStep(deprecated: set<string>, ns: NsNames, cs: seq<Node>)
    requires cs != []
    requires var first := Render(deprecated, ns, cs[0]);
             var all := RenderAll(deprecated, first.ns, cs[1..]);
             var body := GrammarBody(deprecated, first.ns, cs[1..]);
             first.value.Success? ==>
               (all.values.Success? && AllSome(all.values.value) ==>
                  body == Rendered(Success(Some(Unlines(Texts(all.values.value)))), all.ns)) &&
               (all.values.Success? && !AllSome(all.values.value) ==> body.value == Failure(NoneInGrammar)) &&
               (all.values.Failure? ==> body.value.Failure?)
    ensures var all := RenderAll(deprecated, ns, cs);
            all.values.Success? && AllSome(all.values.value) ==>
              GrammarBody(deprecated, ns, cs) == Rendered(Success(Some(Unlines(Texts(all.values.value)))), all.ns)
    ensures var all := RenderAll(deprecated, ns, cs);
            all.values.Success? && !AllSome(all.values.value) ==> GrammarBody(deprecated, ns, cs).value == Failure(NoneInGrammar)
    ensures RenderAll(deprecated, ns, cs).values.Failure? ==> GrammarBody(deprecated, ns, cs).value.Failure?
  {
    var first := Render(deprecated, ns, cs[0]);
    var rest := RenderAll(deprecated, first.ns, cs[1..]);
    RenderAllUnfold(deprecated, ns, cs);
    if first.value.Success? && rest.values.Success? {
      var vs := [first.value.value] + rest.values.value;
      assert vs[0] == first.value.value && vs[1..] == rest.values.value;
      assert AllSome(vs) <==> first.value.value.Some? && AllSome(rest.values.value);
      if AllSome(vs) {
        assert Texts(vs) == [first.value.value.value] + Texts(rest.values.value);
        assert Unlines(Texts(vs)) == first.value.value.value + "\n" + Unlines(Texts(rest.values.value));
      }
    }
  }

  /** `grammar`: a line break, the namespace lines, then each child's text
      followed by a line break, the children being rendered under the table
      the namespace loop leaves. It fails exactly when a child fails or
      renders to None. */
  lemma GrammarText(deprecated: set<string>, ns: NsNames, n: Node)
    requires n.tag == Grammar
    ensures var all := RenderAll(deprecated, Register(ns, n.nsmap), n.children);
            all.values.Success? && AllSome(all.values.value) ==>
              Render(deprecated, ns, n)
                == Rendered(Success(Some("\n" + NamespaceLines(n.nsmap) + Unlines(Texts(all.values.value)))), all.ns)
    ensures var all := RenderAll(deprecated, Register(ns, n.nsmap), n.children);
            Render(deprecated, ns, n).value.Failure? <==> !(all.values.Success? && AllSome(all.values.value))
  {
    GrammarBodyLines(deprecated, Register(ns, n.nsmap), n.children);
  }

  /** Inside a grammar that declares the annotations namespace, an attribute
      with a default value writes it with the prefix of the last such
      declaration. */
  lemma DefaultUsesDeclaredPrefix(deprecated: set<string>, ns: NsNames, decls: seq<NsDecl>, a: Node, i: nat)
    requires a.tag == Attribute && Attr(a, DefaultValueKey).Some? && NoGrammarIn(a.children)
    requires i < |decls| && decls[i].uri == AnnotationsNs
    requires forall j :: i < j < |decls| ==> decls[j].uri != AnnotationsNs
    ensures var all := RenderAll(deprecated, Register(ns, decls), a.children);
            all.values.Success? ==>
              Render(deprecated, Register(ns, decls), a).value
                == Success(Some(DefaultLine(decls[i].prefix, Attr(a, DefaultValueKey).value)
                                + ("attribute " + Show(Name(a)) + " { " + AttributeBody(|a.children|, all.values.value) + " }")))
  {
    RegisterLast(ns, decls, AnnotationsNs);
    RenderAllKeepsNs(deprecated, Register(ns, decls), a.children);
  }
}
