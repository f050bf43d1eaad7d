/** The renderer object of cli/xml2rfc/writers/doc.py: the deprecated names
    it was built with and the namespace table `nsnames`, which `grammar`
    fills as it walks the namespace map. Every rendering is proved equal to
    the functional model in module Compact. */
module Renderer {
  import opened Wrappers
  import opened Pattern
  import Compact

  class CompactRenderer {
    /** The names whose references are dropped. */
    const deprecated: set<string>
    /** `self.nsnames`: namespace URI to prefix. */
    var nsnames: Compact.NsNames

    /** `RelaxNGCompactRenderer(deprecated=...)`: an empty namespace table. */
    constructor(deprecated: set<string>)
      ensures this.deprecated == deprecated && nsnames == map[]
    {
      this.deprecated := deprecated;
      nsnames := map[];
    }

    /** `render(e)`: the result and the new table are those of the
        functional model started from the current table. */
    method Render(n: Node) returns (r: Result<Option<string>, Compact.RenderError>)
      modifies this
      ensures Compact.Render(deprecated, old(nsnames), n) == Compact.Rendered(r, nsnames)
      decreases n, 1
    {
      if n.tag == Grammar {
        r := RenderGrammar(n);
      } else {
        var x := Compact.Render(deprecated, nsnames, n);
        r, nsnames := x.value, x.ns;
      }
    }

    /** `grammar(e)`: every namespace declaration is entered in the table
        (and, with a prefix, announced by a `namespace` line), then every
        child is rendered in turn and followed by a line break. A failing
        child stops the walk with the table as it then stands; a child
        that renders as None is the TypeError of `None + '\n'`. */
    method RenderGrammar(n: Node) returns (r: Result<Option<string>, Compact.RenderError>)
      requires n.tag == Grammar
      modifies this
      ensures Compact.Render(deprecated, old(nsnames), n) == Compact.Rendered(r, nsnames)
      decreases n, 0
    {
      var text := RegisterNamespaces(n.nsmap);
      var whole := Compact.Render(deprecated, old(nsnames), n);
      assert whole == Compact.Prepend(text, Compact.GrammarBody(deprecated, nsnames, n.children));
      var j := 0;
      while j < |n.children|
        invariant 0 <= j <= |n.children|
        invariant Compact.Prepend(text, Compact.GrammarBody(deprecated, nsnames, n.children[j..])) == whole
      {
        var c := n.children[j];
        assert n.children[j..][0] == c && n.children[j..][1..] == n.children[j + 1..];
        ghost var before := nsnames;
        var v := Render(c);
        assert Compact.Render(deprecated, before, c) == Compact.Rendered(v, nsnames);
        match v {
          case Failure(e) =>
            return v;
          case Success(None) =>
            return Failure(Compact.NoneInGrammar);
          case Success(Some(s)) =>
            ghost var rest := Compact.GrammarBody(deprecated, nsnames, n.children[j + 1..]);
            PrependTwice(text, s + "\n", rest);
            text := text + (s + "\n");
        }
        j := j + 1;
      }
      assert n.children[j..] == [];
      assert text + "" == text;
      r := Success(Some(text));
    }

    /** The first loop of `grammar(e)`: each declaration of the namespace
        map is entered in the table, and those with a prefix add a
        `namespace` line to the text that starts with a line break. */
    method RegisterNamespaces(nsmap: seq<NsDecl>) returns (text: string)
      modifies this
      ensures nsnames == Compact.Register(old(nsnames), nsmap)
      ensures text == "\n" + Compact.NamespaceLines(nsmap)
    {
      text := "\n";
      for i := 0 to |nsmap|
        invariant Compact.Register(nsnames, nsmap[i..]) == Compact.Register(old(nsnames), nsmap)
        invariant text + Compact.NamespaceLines(nsmap[i..]) == "\n" + Compact.NamespaceLines(nsmap)
      {
        var d := nsmap[i];
        assert nsmap[i..][0] == d && nsmap[i..][1..] == nsmap[i + 1..];
        ghost var before := text;
        nsnames := nsnames[d.uri := d.prefix];
        if d.prefix.Some? && d.prefix.value != "" {
          text := text + Compact.NamespaceDecl(d.prefix.value, d.uri);
        }
        ghost var line, later := Compact.NamespaceLine(d), Compact.NamespaceLines(nsmap[i + 1..]);
        assert text == before + line;
        assert Compact.NamespaceLines(nsmap[i..]) == line + later;
        ConcatAssoc(before, line, later);
      }
      assert nsmap[|nsmap|..] == [];
      assert text + "" == text;
    }
  }

  lemma PrependTwice(a: string, b: string, r: Compact.Rendered)
    ensures Compact.Prepend(a, Compact.Prepend(b, r)) == Compact.Prepend(a + b, r)
  {
    if r.value.Success? && r.value.value.Some? {
      assert a + (b + r.value.value.value) == (a + b) + r.value.value.value;
    }
  }

  lemma ConcatAssoc(a: string, b: string, c: string)
    ensures a + (b + c) == (a + b) + c
  {
  }
}
