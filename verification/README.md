# xml2rfc documentation writer: element catalog and compact-syntax renderer

This project models in Dafny the part of xml2rfc's documentation writer
(`cli/xml2rfc/writers/doc.py`) that turns the RFC XML v3 RELAX NG schema into
the data behind the "xml2rfc vocabulary" documentation page.

- **The compact-syntax renderer** (`RelaxNGCompactRenderer`). It walks a
  RELAX NG pattern tree and produces its RELAX NG Compact Syntax text. Each
  handler (`ref`, `zeroOrMore`, `oneOrMore`, `optional`, `choice`,
  `interleave`, `text`, `empty`, `value`, `grammar`, `define`, `element`,
  `attribute`, `data`, `include`, `start`) and the `render` dispatch are
  modelled in two forms:
  - `Compact`: functions over an immutable tree. The renderer's one piece of
    state, the namespace table `nsnames`, is passed in and handed back with
    every result.
  - `Renderer.CompactRenderer`: a class that holds `nsnames` as a field. Its
    `grammar` loop is written as the source writes it, and is proved to
    compute what the functions compute.
  - Python's `None` is `Option.None`. An exception is a `Failure` carrying a
    `RenderError`.
- **The element catalog** (`DocWriter.get_elements`, module `Catalog`). It
  builds one record per element definition of the schema: the element's
  attributes, its children with their renderings, and the elements that
  refer to it.
  - The loops are methods. Each is proved to compute what a recursive
    specification function says.
  - `CatalogProps` proves what the finished catalog holds.
  - The XPath queries are the structural searches of module `Pattern`.
  - `sort` is a stable insertion sort on Python's string order (module
    `Order`).
- **The description pass** of `DocWriter.process` and the `capfirst`
  template filter (module `Describe`).
  - The descriptions file is a parameter: a map from key to text.

Inputs the source reads from files or module globals are parameters of the
model:
- the v3 schema tree;
- the RFC 7991 baseline schema tree;
- `base.deprecated_element_tags`;
- `base.deprecated_attributes`;
- the parsed description file.

Where the project's own documentation and the code disagree, the model
follows the code:
- **Parentheses.** `zeroOrMore`, `oneOrMore`, `optional` and `choice` wrap
  their text in parentheses when the node has more than one child *node*,
  not more than one non-empty rendering. So two children that both render
  empty give `(  ) *`, not the empty text (`CompactExamples.TwoDeprecatedRefs`).
- **`interleave`.** It has no `return`, so it renders as None. An enclosing
  join leaves it out, and a `grammar` that reaches it fails.
- **Parents.** The catalog records `ref` names as written: it does not
  resolve them through `define`. An element is entered as a parent only
  when at least one of its children is neither an attribute nor has an
  attribute child. It is then entered once for every `ref` anywhere below
  it.
- **Attribute bodies.** `attribute` strips the outer parentheses only when
  the node has exactly one child node and the joined text matches
  `\(.*\)$`.

## Model

| member | source | states |
|---|---|---|
| Compact.Escape | cli/xml2rfc/writers/doc.py:237-238 | a reserved word of the compact syntax gets a leading backslash; any other name is unchanged |
| Compact.RefText | cli/xml2rfc/writers/doc.py:233-239 | a ref without a name gives None; a deprecated name gives "" (tested before escaping, so a deprecated keyword is dropped too); a keyword gets a backslash; any other name is itself |
| Compact.Quantified | cli/xml2rfc/writers/doc.py:223-244 | the rendering is empty exactly when the node has at most one child node and no child renders non-empty; with more than one child node it is the wrapped ", "-join of the non-empty renderings plus the suffix; otherwise the bare join plus the suffix |
| Compact.BreakLines | cli/xml2rfc/writers/doc.py:249-251 | the three line-break rewrites change nothing but spaces into line breaks: same length, every other character in place |
| Compact.BreakLinesExactly | cli/xml2rfc/writers/doc.py:249-251 | after the three rewrites no `)* | (`, `) | (` or `)+ | (` joint is left (nor its `&` form), and a character differs from the input only where it is the space of such a joint in the input |
| Compact.BreakLinesNoJoint | cli/xml2rfc/writers/doc.py:249-251 | a text with no `)` before its last character is left as it is |
| Compact.Alternation | cli/xml2rfc/writers/doc.py:245-252 | a choice renders as its non-empty renderings joined by a spaced vertical bar (wrapped in "( … )" when the node has several child nodes), changed only by spaces turned into line breaks |
| Compact.AlternationBreaks | cli/xml2rfc/writers/doc.py:245-259 | a choice or interleave text is its (wrapped) join with exactly the joints broken: no joint is left, and each changed character is the space of a joint of the join |
| Compact.ElementText | cli/xml2rfc/writers/doc.py:284-290 | an element's text has no blank line left (no two line breaks with only blanks between them), keeps every non-blank character of the raw text in order, and starts with `element <name> {` when the name has no line break |
| Compact.ElementHead | cli/xml2rfc/writers/doc.py:284-289 | a name without line breaks comes through the blank-line substitution untouched, behind `element ` |
| Compact.ElementWithoutText | cli/xml2rfc/writers/doc.py:284-290 | an element none of whose children renders text is `element <name> {`, a line break, `  }` and a line break: the blank line between the braces is gone |
| Compact.DefineText | cli/xml2rfc/writers/doc.py:277-283 | a define is its name (a keyword with its backslash, a missing name as "None"), ` =`, a line break and two spaces, the non-empty renderings joined by "," and a line break, and a final line break |
| CompactProps.DefineRendering | cli/xml2rfc/writers/doc.py:277-283 | rendering a named define whose children render gives that text built from the children's renderings |
| Compact.AttributeBody | cli/xml2rfc/writers/doc.py:296-299 | the body is "text" when there are no children and the ", "-join with several; with one child, a join not matching `\(.*\)$` is kept and a matching one loses its first and last characters: its enclosing parentheses, or (as `$` also matches before a final line break) its opening parenthesis and that line break |
| Compact.AttributeText | cli/xml2rfc/writers/doc.py:291-303 | an attribute fails exactly when it has a default value and the annotations namespace has no prefix yet (the KeyError); any default, even "", puts the annotation line with that prefix before `attribute <name> { <body> }` |
| Compact.CombineOp | cli/xml2rfc/writers/doc.py:309-318 | `start` assigns with "=" when combine is absent, a bar followed by "=" for choice, "&=" for interleave, and fails on any other mode |
| CompactProps.RegisterLast | cli/xml2rfc/writers/doc.py:269-271 | after the namespace loop a URI is in the table exactly when it was before or some declaration has it; its prefix is that of the last declaration with it; a URI no declaration has keeps its entry |
| CompactProps.NamespaceLinesConcat | cli/xml2rfc/writers/doc.py:269-273 | the namespace lines of two declaration lists are those of the first followed by those of the second |
| CompactProps.NamespaceLinesOne | cli/xml2rfc/writers/doc.py:272-273 | a declaration with a non-empty prefix gives the line `namespace <prefix> = "<uri>"`, one without a prefix gives none |
| CompactProps.GrammarBodyLines | cli/xml2rfc/writers/doc.py:274-276 | when every child renders a text, the child loop appends each text followed by a line break; a child rendering None fails it (adding None to a string), and so does a failing child |
| CompactProps.GrammarText | cli/xml2rfc/writers/doc.py:266-276 | a grammar renders as a line break, its namespace lines and each child's text followed by a line break, the children rendered with the table its declarations produced; it fails exactly when a child fails or renders None |
| CompactProps.DefaultUsesDeclaredPrefix | cli/xml2rfc/writers/doc.py:291-303 | an attribute with a default, rendered after declarations of the annotations namespace, gets the annotation line with the prefix of the last such declaration before `attribute <name> { <body> }` |
| Compact.IncludeText | cli/xml2rfc/writers/doc.py:307-308 | an include without href fails; otherwise the text is `include "`, the href with some "g"s turned into "c"s and nothing else changed, and a closing quote: ten characters longer than the href |
| Compact.IncludeRewritesEveryRng | cli/xml2rfc/writers/doc.py:307-308 | every ".rng" of the href becomes ".rnc": none is left between the quotes, and a character changes only as the last one of a ".rng" of the href |
| Compact.RenderAll | cli/xml2rfc/writers/doc.py:224-225 | rendering the children, when it succeeds, gives exactly one rendering per child node |
| CompactProps.RenderAllNth | cli/xml2rfc/writers/doc.py:224-225 | the i-th rendering is what `render` gives for the i-th child, started from the table the children before it left |
| CompactProps.RenderAllNthPlain | cli/xml2rfc/writers/doc.py:224-225 | with no grammar among the children, the i-th rendering is that child rendered from the starting table |
| Compact.Render | cli/xml2rfc/writers/doc.py:214-222 | a comment renders as ""; a tag without a handler fails with NotImplemented naming the tag |
| CompactProps.RenderKeepsNs | cli/xml2rfc/writers/doc.py:266-271 | only `grammar` writes the namespace table: rendering a tree without a grammar node leaves it as it was, whatever the outcome |
| CompactProps.RenderAllKeepsNs | cli/xml2rfc/writers/doc.py:269-271 | the same for a list of such trees |
| CompactProps.InterleaveRendersNone | cli/xml2rfc/writers/doc.py:253-259 | an interleave whose children render renders as None, and it fails exactly when one of its children fails |
| CompactProps.PresentSkipsEmpty | cli/xml2rfc/writers/doc.py:225 | `filter(None, …)` ignores an empty rendering wherever it is inserted |
| CompactProps.RenderAllWithDeprecatedRef | cli/xml2rfc/writers/doc.py:233-236 | inserting a deprecated ref among children inserts "" among their renderings and changes neither the outcome nor the table |
| CompactProps.DeprecatedRefInvisible | cli/xml2rfc/writers/doc.py:233-236 | a deprecated ref leaves no trace, not even a stray separator, in a node that already has two or more children |
| CompactProps.GroupTextSamePresent | cli/xml2rfc/writers/doc.py:223-252 | a group handler with two or more children depends on the children's renderings only through the non-empty ones |
| CompactExamples.ValueRendering | cli/xml2rfc/writers/doc.py:264-265 | a value renders as its text in double quotes |
| CompactExamples.ChoiceOfThreeValues | cli/xml2rfc/writers/doc.py:245-252 | the choice of "yes", "no" and "maybe" renders as the three quoted values joined by spaced vertical bars inside "( … )", with no line break |
| CompactExamples.RefToKeyword | cli/xml2rfc/writers/doc.py:237-238 | a ref to `text` renders as `\text` |
| CompactExamples.ZeroOrMoreOfOneRef | cli/xml2rfc/writers/doc.py:223-227 | zeroOrMore over one ref renders `xref *`, without parentheses |
| CompactExamples.TwoDeprecatedRefs | cli/xml2rfc/writers/doc.py:223-227 | zeroOrMore over two deprecated refs renders `(  ) *`, not "" |
| CompactExamples.AttributeWithEmptyDefault | cli/xml2rfc/writers/doc.py:300-302 | an empty default value still gets its annotation line |
| CompactExamples.StartWithUnknownCombine | cli/xml2rfc/writers/doc.py:317-318 | `start` with combine "merge" fails |
| CompactExamples.IncludeEveryOccurrence | cli/xml2rfc/writers/doc.py:308 | every ".rng" in the href is replaced, not only the last |
| Renderer.CompactRenderer.constructor | cli/xml2rfc/writers/doc.py:210-213 | a new renderer has an empty namespace table and the given deprecated names |
| Renderer.CompactRenderer.Render | cli/xml2rfc/writers/doc.py:214-222 | the result of `render` and the table it leaves are those of the functional model started from the current table |
| Renderer.CompactRenderer.RegisterNamespaces | cli/xml2rfc/writers/doc.py:267-273 | the namespace loop enters every declaration in the table and leaves the text "\n" followed by one `namespace` line per prefixed declaration |
| Renderer.CompactRenderer.RenderGrammar | cli/xml2rfc/writers/doc.py:266-276 | `grammar` enters every namespace and writes a line per prefixed one, then appends each child's text and a line break; a failing child or a None rendering stops it; all as the functional model says |
| Pattern.ElementDefs | cli/xml2rfc/writers/doc.py:67 | the element definitions are elements, and a root that is not a grammar has none |
| Pattern.ElementDefsExactly | cli/xml2rfc/writers/doc.py:67 | a node is an element definition exactly when the root is a grammar and the node is an `element` child of one of its `define` children |
| Pattern.AttributeSites | cli/xml2rfc/writers/doc.py:76 | the attribute search finds only attribute nodes |
| Pattern.AttributeSitesExactly | cli/xml2rfc/writers/doc.py:76 | a site is found exactly when it is an `attribute` node somewhere below the element, paired with the tag of its parent |
| Pattern.DescendantsWithin | cli/xml2rfc/writers/doc.py:76 | the descendant search finds exactly the nodes somewhere below the given ones, each with its parent's tag |
| Pattern.ChildrenTagged | cli/xml2rfc/writers/doc.py:94 | the children with a tag are exactly those of the list that have it |
| Pattern.ChoiceValues | cli/xml2rfc/writers/doc.py:86 | an attribute without children has no choice values |
| Pattern.ChoiceValuesExactly | cli/xml2rfc/writers/doc.py:86 | a node is a choice value exactly when it is a `value` child of a `choice` child of the attribute |
| Pattern.RefNamesIn | cli/xml2rfc/writers/doc.py:96 | a name is collected exactly when some ref among the nodes searched carries it |
| Pattern.DescendantsHaveRef | cli/xml2rfc/writers/doc.py:96 | a ref with a name is among the descendants exactly when it is somewhere below the children |
| Pattern.RefNamesBelow | cli/xml2rfc/writers/doc.py:96 | the names `.//x:ref/@name` yields for an element are exactly the names of the refs anywhere below it |
| Strings.Present | cli/xml2rfc/writers/doc.py:225 | `filter(None, …)` keeps only non-empty texts, and is empty exactly when no rendering is a non-empty text |
| Strings.PresentConcat | cli/xml2rfc/writers/doc.py:225 | `filter(None, …)` of two lists put together is the two filtered lists put together |
| Strings.PresentOne | cli/xml2rfc/writers/doc.py:225 | a single rendering is kept exactly when it is a non-empty text |
| Strings.JoinEmptyIff | cli/xml2rfc/writers/doc.py:225 | a join of non-empty parts is empty exactly when there are no parts |
| Strings.ReplaceAllNoMatch | cli/xml2rfc/writers/doc.py:249-251 | `str.replace` changes nothing when the pattern occurs nowhere in the text |
| Strings.ReplaceAllFirst | cli/xml2rfc/writers/doc.py:249-251 | the first occurrence of the pattern is replaced, the text before it is kept, and the rest after it is replaced in turn |
| Strings.ReplaceAllLeavesNone | cli/xml2rfc/writers/doc.py:249-251 | when the replacement starts like the pattern and neither repeats the pattern's first character, no occurrence of the pattern is left |
| Strings.ReplaceAllChangedAt | cli/xml2rfc/writers/doc.py:249-251 | when the replacement differs from the pattern at one position only, a character changes only at that position of an occurrence of the pattern |
| Strings.ReplaceAllRewritesOnly | cli/xml2rfc/writers/doc.py:249-251 | a replacement whose pattern and replacement differ only by a→b changes only a's into b's |
| Strings.NewlineSpan | cli/xml2rfc/writers/doc.py:289 | what a match of `(\n[ \t]*)+\n` takes after its first line break (the span) is spaces, tabs and line breaks, ending in a line break |
| Strings.NewlineSpanMaximal | cli/xml2rfc/writers/doc.py:289 | the match is greedy: it cannot be extended |
| Strings.SpanComplete | cli/xml2rfc/writers/doc.py:289 | the span takes in every leading run of spaces, tabs and line breaks that ends in a line break, so it is the longest one |
| Strings.SpanStartsBlank | cli/xml2rfc/writers/doc.py:289 | there is a span exactly when some line break follows only spaces and tabs at the start of the text |
| Strings.CollapseNoBlankLine | cli/xml2rfc/writers/doc.py:289 | after the substitution no two line breaks have only blanks between them |
| Strings.NoSpanAfterBreakIff | cli/xml2rfc/writers/doc.py:289 | no line break being followed by a match is the same as having no blank line |
| Strings.CollapseFixed | cli/xml2rfc/writers/doc.py:289 | a text without a blank line is left as it is |
| Strings.CollapseIdempotent | cli/xml2rfc/writers/doc.py:289 | substituting twice gives what substituting once gives |
| Strings.CollapseRun | cli/xml2rfc/writers/doc.py:289 | a line break, a run of blank lines, and text that does not start another run: the run is reduced to the one line break |
| Strings.CollapseKeepsText | cli/xml2rfc/writers/doc.py:289 | the substitution removes only blanks and line breaks |
| Strings.CollapsePrefix | cli/xml2rfc/writers/doc.py:288-289 | a first line without line breaks is left as it is |
| Order.SortByPermutes | cli/xml2rfc/writers/doc.py:99 | sorting yields a permutation of the list |
| Order.SortBySorted | cli/xml2rfc/writers/doc.py:99 | the sorted list is ordered by key in Python's string order |
| Order.SortByStable | cli/xml2rfc/writers/doc.py:99 | the sort is stable: records with equal keys keep their order |
| Order.SortDistinct | cli/xml2rfc/writers/doc.py:104-105 | sorting a list without repeats gives a strictly increasing list of the same names |
| Order.BelowTotal | cli/xml2rfc/writers/doc.py:105 | any two strings are comparable |
| Order.BelowTrans | cli/xml2rfc/writers/doc.py:105 | string order is transitive |
| Order.BelowAntisym | cli/xml2rfc/writers/doc.py:105 | string order is antisymmetric |
| Catalog.AttributeEntryOf | cli/xml2rfc/writers/doc.py:77-91 | an attribute record is required exactly when its parent is not `optional`, has a default exactly when the annotation is a non-empty text, is new exactly when the baseline has no such attribute on the element, is deprecated exactly when the pair is listed, and lists the choice values in order |
| Catalog.CollectAttributes | cli/xml2rfc/writers/doc.py:76-91 | the attribute loop computes what AttributeEntries says, table included |
| Catalog.CollectAttribute | cli/xml2rfc/writers/doc.py:77-91 | one turn of the attribute loop: an ignored name adds nothing, any other its record, and a failing rendering of the first choice stops the loop with the table it left |
| Catalog.AddParents | cli/xml2rfc/writers/doc.py:97-98 | the parent loop computes what AddParent says |
| Catalog.CollectChildren | cli/xml2rfc/writers/doc.py:93-98 | the child loop computes what ChildEntries says, table included |
| Catalog.SetParents | cli/xml2rfc/writers/doc.py:102-105 | the final loop gives each record that has parents their sorted list, and changes nothing else |
| Catalog.GetElements | cli/xml2rfc/writers/doc.py:40-107 | `get_elements` returns what Elements says: the catalog, or the first rendering failure |
| CatalogProps.AttributeEntriesSound | cli/xml2rfc/writers/doc.py:76-91 | every attribute record stands for an attribute site that is not ignored |
| CatalogProps.AttributeEntriesComplete | cli/xml2rfc/writers/doc.py:76-91 | every attribute site that is not ignored has a record |
| CatalogProps.AddParentMembers | cli/xml2rfc/writers/doc.py:97-98 | after the loop, x is a parent of c exactly when it was before, or c is one of the names and x the element |
| CatalogProps.AddParentDistinct | cli/xml2rfc/writers/doc.py:97-98 | parent lists stay without repeats, as sets do |
| CatalogProps.ChildEntriesParents | cli/xml2rfc/writers/doc.py:93-98 | the element is added as a parent of each name it refers to when, and only when, one of its children qualifies |
| CatalogProps.ChildEntriesNodes | cli/xml2rfc/writers/doc.py:93-95 | the child loop records exactly the qualifying children, in order |
| CatalogProps.ChildEntriesDistinct | cli/xml2rfc/writers/doc.py:97-98 | the child loop keeps parent lists without repeats |
| CatalogProps.DefinitionsKeys | cli/xml2rfc/writers/doc.py:70-74 | the definition loop leaves a record for each name it walked and for those it started with, and no other |
| CatalogProps.DefinitionsEntries | cli/xml2rfc/writers/doc.py:70-100 | every record the loop leaves has sorted attributes, the right new and deprecated flags, no parents yet, and a definition of its name whose non-ignored attribute sites and the records correspond both ways |
| CatalogProps.DefinitionsKids | cli/xml2rfc/writers/doc.py:93-101 | every record the loop leaves lists the qualifying children of a definition of its name and joins their renderings |
| CatalogProps.DefinitionsParentsSound | cli/xml2rfc/writers/doc.py:93-98 | every parent the loop records is a definition with a qualifying child that refers to the name |
| CatalogProps.DefinitionsParentsDistinct | cli/xml2rfc/writers/doc.py:97-98 | the loop leaves parent lists without repeats |
| CatalogProps.DefinitionsParentsKept | cli/xml2rfc/writers/doc.py:93-98 | a parent once recorded stays recorded |
| CatalogProps.DefinitionsParentsComplete | cli/xml2rfc/writers/doc.py:93-98 | every definition with a qualifying child that refers to a name is recorded as its parent |
| CatalogProps.CatalogNames | cli/xml2rfc/writers/doc.py:67-74 | the catalog has a record for a name exactly when some top-level element definition has that name |
| CatalogProps.CatalogAttributes | cli/xml2rfc/writers/doc.py:76-100 | a record's attributes are sorted by name; it is new exactly when the baseline lacks the element and deprecated-flagged exactly when an attribute is; for one definition d of the element, each attribute record describes a site below d (its name, never ignored; required exactly when the parent is not `optional`; a default exactly when the annotation is a non-empty text, and then that text; new exactly when the baseline lacks the attribute; deprecated exactly when listed; its choice values in order), and each site below d whose name is not ignored is described by a record |
| CatalogProps.EveryDescribedIff | cli/xml2rfc/writers/doc.py:76-91 | the record-by-record statement that each record describes a site is the same as the quantified one |
| CatalogProps.CatalogChildren | cli/xml2rfc/writers/doc.py:93-101 | a record lists, in order, the children of a definition of its name that are not attributes and have no attribute child, and its rendering is theirs joined by ", " with the empty ones left out |
| CatalogProps.CatalogParents | cli/xml2rfc/writers/doc.py:96-105 | a record's parents are strictly increasing, and p is among them exactly when some definition named p has a qualifying child and a ref to the record's name below it |
| Describe.Lookup | cli/xml2rfc/writers/doc.py:128 | a missing key gives None, never an error |
| Describe.DescribeChoiceList | cli/xml2rfc/writers/doc.py:133-136 | each choice gets the description of its `n[a="v"]` key, and the flag is true exactly when one of them is non-empty |
| Describe.DescribeAttributeList | cli/xml2rfc/writers/doc.py:129-136 | each attribute record is described as DescribeAttribute says |
| Describe.AttachDescriptions | cli/xml2rfc/writers/doc.py:127-136 | the description loop over the catalog computes what Described says, whatever order it visits the records in |
| Describe.DescribedChangesDescriptionsOnly | cli/xml2rfc/writers/doc.py:127-136 | the pass keeps the names and changes nothing but descriptions and the choice flag |
| Describe.DescribedKeys | cli/xml2rfc/writers/doc.py:128-135 | the element's description comes from key `n`, an attribute's from `n[a]`, a value's from `n[a="v"]` |
| Describe.DescribedFlag | cli/xml2rfc/writers/doc.py:136 | an attribute is flagged exactly when the description of one of its values is a non-empty text |
| Describe.DescribedIdempotent | cli/xml2rfc/writers/doc.py:127-136 | describing twice gives what describing once gives |
| Describe.CapFirst | cli/xml2rfc/writers/doc.py:22-24 | None and "" are returned as they are; otherwise only the first character changes, to its upper case |
| Describe.CapFirstIdempotent | cli/xml2rfc/writers/doc.py:22-24 | capitalising twice gives what capitalising once gives |

## Left out

- Reading the schema files, the description file (YAML, with its `\<`, `\>`, `\&` escapes) and the templates: I/O. The trees and the description map are parameters.
- The rest of `DocWriter.process` (the element list, the template rendering), `__init__`, `write` and the manpage code: outside the catalog and the renderer.
- `process` when no `doc.yaml` is found: the name `descriptions` is then unbound, and the source fails with a NameError. The model always has a description map.
- The `self.nsmap` that `grammar` stores is never read, so it is not modelled.
- `render` dispatches with `hasattr`, so a tag equal to another member's name (`render`, `keywords`, `deprecated`, `nsnames`) would reach that member. The model treats every tag without a handler as NotImplemented.
- Processing instructions and other non-element nodes besides comments are not modelled.
- The XPath queries interpolate the element and attribute names into the expression. A name with a quote would break the query; the model compares names directly.
- Catalog.GetElements: an element or attribute without a name is keyed and listed as "None", the text Python prints. Python would use the None value itself, and sorting it among strings would raise a TypeError. That failure is not modelled.
- Catalog.SetParents: Python keeps each parent set as a `set`, whose iteration order is unspecified. The model keeps an insertion-ordered list without repeats. The order does not matter once the list is sorted, and sorting strings without repeats gives one result.
- Describe.CapFirst: the upper case is ASCII only (a–z). Python's `str.upper` also maps other letters and can lengthen the text (`ß` → `SS`).
- Describe.AttachDescriptions: the source visits the catalog in dictionary order. Each record is described independently, so the model visits the keys in any order.
- CatalogProps.CatalogAttributes: when two definitions share a name, the later one's record replaces the earlier's. The lemma names *a* definition of that name, not which one.
- CatalogProps.CatalogAttributes: the `rnc` text of an attribute with choices is not tied to the rendering of its first child.
- CatalogProps.CatalogChildren: the rendering of each recorded child is not tied to a specific namespace table; only the joining of the renderings is stated.
