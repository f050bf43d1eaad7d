/** RelaxNGCompactRenderer (cli/xml2rfc/writers/doc.py) as functions: the
    rendering of a RELAX NG pattern tree into RELAX NG Compact Syntax text.

    The renderer's only state, `nsnames` (namespace URI to prefix), is
    threaded through: every rendering returns its value together with the
    table as it stands afterwards. A rendering is `Some(text)`, or `None`
    where the source returns Python's None (`interleave`, which has no
    `return`, and a `ref` without a name); an exception is a `Failure`. */
module Compact {
  import opened Wrappers
  import opened Strings
  import opened Pattern

  /** `self.nsnames`: namespace URI to prefix (None for the default namespace). */
  type NsNames = map<string, Option<string>>

  datatype RenderError =
    | NotImplemented(tag: string)        // no handler for the tag
    | UnsupportedCombine(combine: string) // `start` with a combine other than choice or interleave
    | NoneInGrammar                      // `render(c) + '\n'` when render(c) is None
    | MissingPrefix(uri: string)         // `self.nsnames[nsa]` when nsa was never registered
    | MissingHref                        // `e.get('href').replace(...)` when there is no href

  /** The reserved words of the compact syntax, escaped with a backslash. */
  const Keywords: set<string> := {
    "attribute", "default", "datatypes", "div", "element", "empty", "external",
    "grammar", "include", "inherit", "list", "mixed", "namespace", "notAllowed",
    "parent", "start", "string", "text", "token" }

  const AnnotationsNs: string := "http://relaxng.org/ns/compatibility/annotations/1.0"

  /** The Clark-notation key of the `a:defaultValue` annotation. */
  const DefaultValueKey: string := "{" + AnnotationsNs + "}defaultValue"

  datatype Rendered = Rendered(value: Result<Option<string>, RenderError>, ns: NsNames)

  datatype RenderedAll = RenderedAll(values: Result<seq<Option<string>>, RenderError>, ns: NsNames)

  // ---------------------------------------------------------------------
  // Text rules of the handlers

  /** A name as `ref` and `define` print it: reserved words get a backslash. */
  function Escape(t: string): (r: string)
    ensures t in Keywords ==> r == "\\" + t
    ensures t !in Keywords ==> r == t
  {
    if t in Keywords then "\\" + t else t
  }

  /** `ref`: a deprecated name is dropped; the deprecated test comes before
      escaping; a missing name gives None. */
  function RefText(deprecated: set<string>, name: Option<string>): (r: Option<string>)
    ensures name.None? ==> r.None?
    ensures name.Some? && name.value in deprecated ==> r == Some("")
    ensures name.Some? && name.value !in deprecated && name.value in Keywords ==> r == Some("\\" + name.value)
    ensures name.Some? && name.value !in deprecated && name.value !in Keywords ==> r == name
  {
    match name
    case None => None
    case Some(t) => if t in deprecated then Some("") else Some(Escape(t))
  }

  /** `zeroOrMore`, `oneOrMore` and `optional`: the non-empty renderings
      joined by ", ", wrapped between `open` and `close` when the node has
      more than one child node (comments and empty renderings included), and
      followed by `suffix` unless the text so far is empty. */
  function Quantified(open: string, close: string, suffix: string, count: nat, vs: seq<Option<string>>): (r: string)
    requires open != ""
    ensures r == "" <==> count <= 1 && forall i :: 0 <= i < |vs| ==> !Truthy(vs[i])
    ensures count > 1 ==> r == open + Join(", ", Present(vs)) + close + suffix
    ensures count <= 1 && r != "" ==> r == Join(", ", Present(vs)) + suffix
  {
    var joined := Join(", ", Present(vs));
    JoinEmptyIff(", ", Present(vs));
    var sub := if count > 1 then open + joined + close else joined;
    if sub == "" then "" else sub + suffix
  }

  /** `)<mark> <op> (`, where the rewrite puts a line break ... */
  function Joint(mark: string, op: char): string
  {
    [')'] + mark + [' ', op, ' ', '(']
  }

  /** ... before the operator. */
  function BrokenJoint(mark: string, op: char): string
  {
    [')'] + mark + ['\n', op, ' ', '(']
  }

  /** The line-break rewrite of `choice` (op '|') and `interleave` (op '&'):
      `)* | (`, `) | (` and `)+ | (` get a line break before the operator,
      in that order. Nothing changes but spaces turned into line breaks;
      BreakLinesExactly says which spaces. */
  function BreakLines(sub: string, op: char): (r: string)
    ensures RewritesOnly(sub, r, ' ', '\n')
  {
    var s1 := ReplaceAll(sub, Joint("*", op), BrokenJoint("*", op));
    var s2 := ReplaceAll(s1, Joint("", op), BrokenJoint("", op));
    var s3 := ReplaceAll(s2, Joint("+", op), BrokenJoint("+", op));
    JointFacts("*", op);
    JointFacts("", op);
    JointFacts("+", op);
    ReplaceAllRewritesOnly(sub, Joint("*", op), BrokenJoint("*", op), ' ', '\n');
    ReplaceAllRewritesOnly(s1, Joint("", op), BrokenJoint("", op), ' ', '\n');
    ReplaceAllRewritesOnly(s2, Joint("+", op), BrokenJoint("+", op), ' ', '\n');
    RewritesOnlyTrans(sub, s1, s2, ' ', '\n');
    RewritesOnlyTrans(sub, s2, s3, ' ', '\n');
    s3
  }

  /** A joint and its broken form differ only in the space after the mark,
      and neither shows its closing parenthesis again. */
  lemma JointFacts(mark: string, op: char)
    requires mark == "" || mark == "*" || mark == "+"
    ensures var j, b := Joint(mark, op), BrokenJoint(mark, op);
            |b| == |j| && b[0] == j[0] && b != j &&
            (op != ')' ==> j[0] !in j[1..] && j[0] !in b[1..]) &&
            (op != '\n' ==> '\n' !in j) &&
            (forall k :: 0 <= k < |j| && k != |mark| + 1 ==> b[k] == j[k]) &&
            RewritesOnly(j, b, ' ', '\n')
  {
    var j, b := Joint(mark, op), BrokenJoint(mark, op);
    assert b[|mark| + 1] != j[|mark| + 1];
  }

  /** The rewrite leaves none of the three joints behind, and a character
      it changed is the space before the operator of a joint of the input. */
  lemma BreakLinesExactly(sub: string, op: char)
    requires op != ')' && op != '\n'
    ensures var r := BreakLines(sub, op);
            forall i :: !OccursAt(r, Joint("*", op), i) && !OccursAt(r, Joint("", op), i) && !OccursAt(r, Joint("+", op), i)
    ensures var r := BreakLines(sub, op);
            forall i :: 0 <= i < |sub| && r[i] != sub[i] ==>
              OccursAt(sub, Joint("*", op), i - 2) || OccursAt(sub, Joint("", op), i - 1) || OccursAt(sub, Joint("+", op), i - 2)
  {
    var j1, b1 := Joint("*", op), BrokenJoint("*", op);
    var j2, b2 := Joint("", op), BrokenJoint("", op);
    var j3, b3 := Joint("+", op), BrokenJoint("+", op);
    JointFacts("*", op);
    JointFacts("", op);
    JointFacts("+", op);
    var s1 := ReplaceAll(sub, j1, b1);
    var s2 := ReplaceAll(s1, j2, b2);
    var s3 := ReplaceAll(s2, j3, b3);
    assert BreakLines(sub, op) == s3;
    ReplaceAllRewritesOnly(sub, j1, b1, ' ', '\n');
    ReplaceAllRewritesOnly(s1, j2, b2, ' ', '\n');
    ReplaceAllRewritesOnly(s2, j3, b3, ' ', '\n');
    ReplaceAllLeavesNone(sub, j1, b1);
    ReplaceAllLeavesNone(s1, j2, b2);
    ReplaceAllLeavesNone(s2, j3, b3);
    forall i: int ensures !OccursAt(s3, j1, i) && !OccursAt(s3, j2, i) && !OccursAt(s3, j3, i) {
      OccursRewritten(s2, s3, ' ', '\n', j1, i);
      OccursRewritten(s1, s2, ' ', '\n', j1, i);
      OccursRewritten(s2, s3, ' ', '\n', j2, i);
    }
    forall i | 0 <= i < |sub| && s3[i] != sub[i]
      ensures OccursAt(sub, j1, i - 2) || OccursAt(sub, j2, i - 1) || OccursAt(sub, j3, i - 2)
    {
      if s1[i] != sub[i] {
        ReplaceAllChangedAt(sub, j1, b1, 2, i);
      } else if s2[i] != s1[i] {
        ReplaceAllChangedAt(s1, j2, b2, 1, i);
        OccursRewritten(sub, s1, ' ', '\n', j2, i - 1);
      } else {
        ReplaceAllChangedAt(s2, j3, b3, 2, i);
        OccursRewritten(s1, s2, ' ', '\n', j3, i - 2);
        OccursRewritten(sub, s1, ' ', '\n', j3, i - 2);
      }
    }
  }

  /** `choice` and `interleave` before the discarded or returned value: the
      non-empty renderings joined by `sep`, wrapped in "( ... )" when the node
      has more than one child node, then the line-break rewrite. */
  function Alternation(sep: string, op: char, count: nat, vs: seq<Option<string>>): (r: string)
    ensures RewritesOnly(if count > 1 then "( " + Join(sep, Present(vs)) + " )" else Join(sep, Present(vs)), r, ' ', '\n')
  {
    var joined := Join(sep, Present(vs));
    BreakLines(if count > 1 then "( " + joined + " )" else joined, op)
  }

  /** A text with no closing parenthesis before its last character holds
      no joint, and the rewrite leaves it as it is. */
  lemma BreakLinesNoJoint(sub: string, op: char)
    requires forall i :: 0 <= i < |sub| - 1 ==> sub[i] != ')'
    ensures BreakLines(sub, op) == sub
  {
    var j1, j2, j3 := Joint("*", op), Joint("", op), Joint("+", op);
    assert j1[0] == ')' && j2[0] == ')' && j3[0] == ')';
    AbsentFirstChar(sub, j1);
    AbsentFirstChar(sub, j2);
    AbsentFirstChar(sub, j3);
    ReplaceAllNoMatch(sub, j1, BrokenJoint("*", op));
    ReplaceAllNoMatch(sub, j2, BrokenJoint("", op));
    ReplaceAllNoMatch(sub, j3, BrokenJoint("+", op));
  }

  /** Between alternatives joined by " | " or " & ", a closing parenthesis
      (bare, or followed by `*` or `+`) and an opening one end up on two
      lines, the operator starting the second; no other character changes. */
  lemma AlternationBreaks(sep: string, op: char, count: nat, vs: seq<Option<string>>)
    requires op != ')' && op != '\n'
    ensures var w := if count > 1 then "( " + Join(sep, Present(vs)) + " )" else Join(sep, Present(vs));
            var r := Alternation(sep, op, count, vs);
            (forall i :: !OccursAt(r, Joint("*", op), i) && !OccursAt(r, Joint("", op), i) && !OccursAt(r, Joint("+", op), i)) &&
            forall i :: 0 <= i < |w| && r[i] != w[i] ==>
              OccursAt(w, Joint("*", op), i - 2) || OccursAt(w, Joint("", op), i - 1) || OccursAt(w, Joint("+", op), i - 2)
  {
    var w := if count > 1 then "( " + Join(sep, Present(vs)) + " )" else Join(sep, Present(vs));
    BreakLinesExactly(w, op);
  }

  /** `define`: `<name> =`, then the non-empty renderings joined by ",\n".
      The name is escaped like a reference's but, unlike a reference, is
      written even when deprecated. */
  function DefineText(name: Option<string>, vs: seq<Option<string>>): (r: string)
    ensures var head := (if name.Some? then Escape(name.value) else "None") + " =\n  ";
            |r| == |head| + |Join(",\n", Present(vs))| + 1 &&
            r[..|head|] == head && r[|head|..|r| - 1] == Join(",\n", Present(vs)) && r[|r| - 1] == '\n'
    ensures name.Some? && name.value in Keywords ==> r[..|name.value| + 1] == "\\" + name.value
    ensures name.Some? && name.value !in Keywords ==> r[..|name.value|] == name.value
  {
    (if name.Some? then Escape(name.value) else "None") + " =\n  " + Join(",\n", Present(vs)) + "\n"
  }

  /** The text `element` builds before its blank-line substitution. */
  function ElementRaw(name: Option<string>, vs: seq<Option<string>>): string
  {
    "element " + Show(name) + " {\n    " + Join(",\n    ", Present(vs)) + "\n  }\n"
  }

  /** `element`: the raw text with every run of blank lines collapsed. The
      result has no blank line, keeps every other character in order, and
      starts with `element <name> {` when the name has no line break. */
  function ElementText(name: Option<string>, vs: seq<Option<string>>): (r: string)
    ensures NoBlankLine(r)
    ensures NonSpace(r) == NonSpace(ElementRaw(name, vs))
    ensures (forall i :: 0 <= i < |Show(name)| ==> Show(name)[i] != '\n') ==>
              |r| > |"element " + Show(name) + " {"| && r[..|"element " + Show(name) + " {"|] == "element " + Show(name) + " {"
  {
    var raw := ElementRaw(name, vs);
    CollapseNoBlankLine(raw);
    CollapseKeepsText(raw);
    if forall i :: 0 <= i < |Show(name)| ==> Show(name)[i] != '\n' then
      ElementHead(name, vs);
      Collapse(raw)
    else
      Collapse(raw)
  }

  /** A name without line breaks leaves the head of the raw text as it is. */
  lemma ElementHead(name: Option<string>, vs: seq<Option<string>>)
    requires forall i :: 0 <= i < |Show(name)| ==> Show(name)[i] != '\n'
    ensures var head := "element " + Show(name) + " {";
            |Collapse(ElementRaw(name, vs))| > |head| && Collapse(ElementRaw(name, vs))[..|head|] == head
  {
    var raw := ElementRaw(name, vs);
    var head := "element " + Show(name) + " {";
    var tail := "\n    " + Join(",\n    ", Present(vs)) + "\n  }\n";
    assert raw == head + tail;
    HeadUnbroken(name);
    CollapsePrefix(head, tail);
    assert Collapse(raw)[..|head|] == head;
  }

  /** The head `element <name> {` has no line break when the name has none. */
  lemma HeadUnbroken(name: Option<string>)
    requires forall i :: 0 <= i < |Show(name)| ==> Show(name)[i] != '\n'
    ensures var head := "element " + Show(name) + " {";
            forall i :: 0 <= i < |head| ==> head[i] != '\n'
  {
    var head := "element " + Show(name) + " {";
    forall i | 0 <= i < |head| ensures head[i] != '\n' {
      if 8 <= i < 8 + |Show(name)| {
        assert head[i] == Show(name)[i - 8];
      }
    }
  }

  /** An element none of whose children renders to text: the empty line
      the raw text holds between the braces is collapsed away. */
  lemma ElementWithoutText(name: Option<string>, vs: seq<Option<string>>)
    requires forall i :: 0 <= i < |Show(name)| ==> Show(name)[i] != '\n'
    requires Present(vs) == []
    ensures ElementText(name, vs) == "element " + Show(name) + " {\n  }\n"
  {
    EmptyElementCollapsed(name, vs);
  }

  lemma EmptyElementCollapsed(name: Option<string>, vs: seq<Option<string>>)
    requires forall i :: 0 <= i < |Show(name)| ==> Show(name)[i] != '\n'
    requires Present(vs) == []
    ensures Collapse(ElementRaw(name, vs)) == "element " + Show(name) + " {\n  }\n"
  {
    var head := "element " + Show(name) + " {";
    EmptyElementRaw(name, vs);
    HeadUnbroken(name);
    CollapsePrefix(head, "\n    \n  }\n");
    EmptyBodyCollapsed();
    ClosingBrace("element " + Show(name));
  }

  lemma ClosingBrace(x: string)
    ensures x + " {" + "\n  }\n" == x + " {\n  }\n"
  {
  }

  lemma EmptyElementRaw(name: Option<string>, vs: seq<Option<string>>)
    requires Present(vs) == []
    ensures ElementRaw(name, vs) == "element " + Show(name) + " {" + "\n    \n  }\n"
  {
  }

  /** The blank line between the braces of a childless element. */
  lemma EmptyBodyCollapsed()
    ensures Collapse("\n    \n  }\n") == "\n  }\n"
  {
    var line, close := "    \n", "  }\n";
    CloseUnchanged();
    BlankLineSpaces();
    CollapseRun(line, close);
    EmptyBodySplit();
  }

  lemma BlankLineSpaces()
    ensures var line := "    \n"; |line| > 0 && line[|line| - 1] == '\n' && forall i :: 0 <= i < |line| ==> IsSpace(line[i])
  {
  }

  lemma EmptyBodySplit()
    ensures "\n" + "    \n" + "  }\n" == "\n    \n  }\n" && "\n" + "  }\n" == "\n  }\n"
  {
  }

  /** The closing line `  }` followed by its line break is left as it is. */
  lemma CloseUnchanged()
    ensures NewlineSpan("  }\n") == 0 && Collapse("  }\n") == "  }\n"
  {
    var close := "  }\n";
    assert NewlineSpan(close[2..]) == 0;
    assert NewlineSpan(close[1..]) == 0;
    assert close == "  }" + "\n";
    CollapsePrefix("  }", "\n");
    assert Collapse("\n") == "\n";
  }

  /** The body of `attribute`: "text" for a node without children, else the
      joined renderings, with the first and last characters stripped when
      there is exactly one child node and the text matches `\(.*\)$`. */
  function AttributeBody(count: nat, vs: seq<Option<string>>): (b: string)
    ensures count == 0 ==> b == "text"
    ensures count > 1 ==> b == Join(", ", Present(vs))
    ensures count == 1 && !MatchesParenthesized(Join(", ", Present(vs))) ==> b == Join(", ", Present(vs))
    ensures count == 1 && MatchesParenthesized(Join(", ", Present(vs))) && Join(", ", Present(vs))[|Join(", ", Present(vs))| - 1] == ')' ==>
              Join(", ", Present(vs)) == "(" + b + ")"
    ensures count == 1 && MatchesParenthesized(Join(", ", Present(vs))) && Join(", ", Present(vs))[|Join(", ", Present(vs))| - 1] == '\n' ==>
              Join(", ", Present(vs)) == "(" + b + "\n" && |b| > 0 && b[|b| - 1] == ')'
  {
    var sub := if count > 0 then Join(", ", Present(vs)) else "text";
    if count == 1 && MatchesParenthesized(sub) then sub[1..|sub| - 1] else sub
  }

  /** The annotation line `attribute` puts before a node that has a
      default value. */
  function DefaultLine(prefix: Option<string>, d: string): string
  {
    "\n    [ " + Show(prefix) + ":defaultValue = \"" + d + "\" ]\n    "
  }

  /** `attribute`: with a default value (even ""), the annotation line comes
      first; its prefix is the one the table holds for the annotations
      namespace, and the table must hold one. */
  function AttributeText(name: Option<string>, default: Option<string>, ns: NsNames, count: nat, vs: seq<Option<string>>)
    : (r: Result<Option<string>, RenderError>)
    ensures r.Failure? <==> default.Some? && AnnotationsNs !in ns
    ensures r.Failure? ==> r.error == MissingPrefix(AnnotationsNs)
    ensures default.None? ==> r == Success(Some("attribute " + Show(name) + " { " + AttributeBody(count, vs) + " }"))
    ensures default.Some? && AnnotationsNs in ns ==>
              r == Success(Some(DefaultLine(ns[AnnotationsNs], default.value) + ("attribute " + Show(name) + " { " + AttributeBody(count, vs) + " }")))
  {
    var body := "attribute " + Show(name) + " { " + AttributeBody(count, vs) + " }";
    match default
    case None => Success(Some(body))
    case Some(d) =>
      if AnnotationsNs in ns then Success(Some(DefaultLine(ns[AnnotationsNs], d) + body))
      else Failure(MissingPrefix(AnnotationsNs))
  }

  /** `start`: the assignment operator chosen by the `combine` attribute. */
  function CombineOp(combine: Option<string>): (r: Result<string, RenderError>)
    ensures combine.None? ==> r == Success("=")
    ensures combine == Some("choice") ==> r == Success("|=")
    ensures combine == Some("interleave") ==> r == Success("&=")
    ensures combine.Some? && combine.value != "choice" && combine.value != "interleave" ==>
              r == Failure(UnsupportedCombine(combine.value))
  {
    match combine
    case None => Success("=")
    case Some(c) =>
      if c == "choice" then Success("|=")
      else if c == "interleave" then Success("&=")
      else Failure(UnsupportedCombine(c))
  }

  /** `include`: every ".rng" in the reference becomes ".rnc". */
  function IncludeText(href: Option<string>): (r: Result<Option<string>, RenderError>)
    ensures href.None? ==> r == Failure(MissingHref)
    ensures href.Some? ==> r.Success? && r.value.Some? && |r.value.value| == |href.value| + 10
    ensures href.Some? ==> r.value.value[..9] == "include \"" && r.value.value[|r.value.value| - 1] == '"'
    ensures href.Some? ==> RewritesOnly(href.value, r.value.value[9..|r.value.value| - 1], 'g', 'c')
  {
    match href
    case None => Failure(MissingHref)
    case Some(h) =>
      var swapped := ReplaceAll(h, ".rng", ".rnc");
      ReplaceAllRewritesOnly(h, ".rng", ".rnc", 'g', 'c');
      var r := "include \"" + swapped + "\"";
      assert r[9..|r| - 1] == swapped;
      Success(Some(r))
  }

  /** No ".rng" is left in the reference, and a character that changed is
      the last of a ".rng" of the original reference. */
  lemma IncludeRewritesEveryRng(h: string)
    ensures var t := IncludeText(Some(h)).value.value;
            var m := t[9..|t| - 1];
            (forall i :: !OccursAt(m, ".rng", i)) &&
            forall i :: 0 <= i < |h| && m[i] != h[i] ==> OccursAt(h, ".rng", i - 3)
  {
    var m := ReplaceAll(h, ".rng", ".rnc");
    assert IncludeText(Some(h)).value.value[9..|IncludeText(Some(h)).value.value| - 1] == m;
    ReplaceAllLeavesNone(h, ".rng", ".rnc");
    forall i | 0 <= i < |h| && m[i] != h[i] ensures OccursAt(h, ".rng", i - 3) {
      ReplaceAllChangedAt(h, ".rng", ".rnc", 3, i);
    }
  }

  predicate IsGroup(t: Tag)
  {
    t.Define? || t.Element? || t.Attribute? || t.Choice? || t.Optional?
    || t.ZeroOrMore? || t.OneOrMore? || t.Interleave?
  }

  /** What a handler that renders all its children makes of their
      renderings `vs`; `ns` is the table after those renderings. */
  function GroupText(n: Node, vs: seq<Option<string>>, ns: NsNames): Result<Option<string>, RenderError>
    requires IsGroup(n.tag)
  {
    match n.tag
    case ZeroOrMore => Success(Some(Quantified("( ", " )", " *", |n.children|, vs)))
    case OneOrMore => Success(Some(Quantified("( ", " )", " +", |n.children|, vs)))
    case Optional => Success(Some(Quantified("(", ")", " ?", |n.children|, vs)))
    case Choice => Success(Some(Alternation(" | ", '|', |n.children|, vs)))
    case Interleave => Success(None)
    case Define => Success(Some(DefineText(Name(n), vs)))
    case Element => Success(Some(ElementText(Name(n), vs)))
    case Attribute => AttributeText(Name(n), Attr(n, DefaultValueKey), ns, |n.children|, vs)
  }

  // ---------------------------------------------------------------------
  // grammar

  /** The namespace loop of `grammar`: each URI is mapped to its prefix, in
      the order of the namespace map. */
  function Register(ns: NsNames, decls: seq<NsDecl>): NsNames
    decreases |decls|
  {
    if decls == [] then ns else Register(ns[decls[0].uri := decls[0].prefix], decls[1..])
  }

  /** One `namespace <prefix> = "<uri>"` line per declaration with a
      non-empty prefix. */
  function NamespaceLines(decls: seq<NsDecl>): string
  {
    if decls == [] then ""
    else
      NamespaceLine(decls[0]) + NamespaceLines(decls[1..])
  }

  function NamespaceLine(d: NsDecl): string
  {
    if Truthy(d.prefix) then NamespaceDecl(d.prefix.value, d.uri) else ""
  }

  /** `'namespace %s = "%s"\n' % (prefix, uri)` */
  function NamespaceDecl(prefix: string, uri: string): string
  {
    "namespace " + prefix + " = \"" + uri + "\"\n"
  }

  /** Text that comes before a rendering: put in front of a successful
      text, while a None or a failure is passed on as it is. */
  function Prepend(p: string, r: Rendered): (r': Rendered)
    ensures r'.ns == r.ns
    ensures r.value.Success? && r.value.value.Some? ==> r'.value == Success(Some(p + r.value.value.value))
    ensures !(r.value.Success? && r.value.value.Some?) ==> r' == r
  {
    match r.value
    case Success(Some(t)) => Rendered(Success(Some(p + t)), r.ns)
    case _ => r
  }

  /** The child loop of `grammar`: each child's rendering and a line break,
      rendered and appended one at a time; a None rendering stops the loop. */
  function GrammarBody(deprecated: set<string>, ns: NsNames, cs: seq<Node>): Rendered
    decreases cs
  {
    if cs == [] then Rendered(Success(Some("")), ns)
    else
      var first := Render(deprecated, ns, cs[0]);
      match first.value
      case Failure(e) => first
      case Success(None) => Rendered(Failure(NoneInGrammar), first.ns)
      case Success(Some(s)) =>
        Prepend(s + "\n", GrammarBody(deprecated, first.ns, cs[1..]))
  }

  // ---------------------------------------------------------------------
  // render

  /** The renderings of the children, left to right, stopping at the first
      failure. */
  function RenderAll(deprecated: set<string>, ns: NsNames, cs: seq<Node>): (r: RenderedAll)
    ensures r.values.Success? ==> |r.values.value| == |cs|
    decreases cs
  {
    if cs == [] then RenderedAll(Success([]), ns)
    else
      var first := Render(deprecated, ns, cs[0]);
      match first.value
      case Failure(e) => RenderedAll(Failure(e), first.ns)
      case Success(v) =>
        var rest := RenderAll(deprecated, first.ns, cs[1..]);
        match rest.values
        case Failure(e) => RenderedAll(Failure(e), rest.ns)
        case Success(vs) => RenderedAll(Success([v] + vs), rest.ns)
  }

  /** `render(e)`: dispatch on the tag. Comments render as "", an unknown
      tag fails. */
  function Render(deprecated: set<string>, ns: NsNames, n: Node): (r: Rendered)
    ensures n.tag.Unknown? ==> r.value == Failure(NotImplemented(n.tag.name))
    ensures n.tag.Comment? ==> r.value == Success(Some(""))
    decreases n
  {
    match n.tag
    case Comment => Rendered(Success(Some("")), ns)
    case Unknown(t) => Rendered(Failure(NotImplemented(t)), ns)
    case Ref => Rendered(Success(RefText(deprecated, Name(n))), ns)
    case Text => Rendered(Success(Some("text")), ns)
    case Empty => Rendered(Success(Some("empty")), ns)
    case Value => Rendered(Success(Some("\"" + Show(n.text) + "\"")), ns)
    case Data => Rendered(Success(Some("xsd:" + Show(Attr(n, "type")))), ns)
    case Include => Rendered(IncludeText(Attr(n, "href")), ns)
    case Grammar =>
      Prepend("\n" + NamespaceLines(n.nsmap), GrammarBody(deprecated, Register(ns, n.nsmap), n.children))
    case Start =>
      (match CombineOp(Attr(n, "combine"))
       case Failure(e) => Rendered(Failure(e), ns)
       case Success(op) =>
         var all := RenderAll(deprecated, ns, n.children);
         match all.values
         case Failure(e) => Rendered(Failure(e), all.ns)
         case Success(vs) => Rendered(Success(Some("start " + op + " " + Join(", ", Present(vs)))), all.ns))
    case Define | Element | Attribute | Choice | Optional | ZeroOrMore | OneOrMore | Interleave =>
      var all := RenderAll(deprecated, ns, n.children);
      match all.values
      case Failure(e) => Rendered(Failure(e), all.ns)
      case Success(vs) => Rendered(GroupText(n, vs, all.ns), all.ns)
  }
}
