/** What the catalog of `get_elements` guarantees about its records. */
module CatalogProps {
  import opened Wrappers
  import opened Strings
  import opened Pattern
  import opened Compact
  import opened Order
  import opened Catalog

  predicate Distinct(xs: seq<string>)
  {
    forall i, j :: 0 <= i < j < |xs| ==> xs[i] != xs[j]
  }

  /** Some child is not an `attribute` and has no `attribute` child. */
  predicate HasQualifying(cs: seq<Node>)
  {
    exists c :: c in cs && Qualifies(c)
  }

  /** The children that qualify, in order. */
  function Qualifying(cs: seq<Node>): seq<Node>
  {
    if cs == [] then [] else (if Qualifies(cs[0]) then [cs[0]] else []) + Qualifying(cs[1..])
  }

  /** The nodes of the recorded children. */
  function NodesOf(kids: seq<ChildEntry>): (r: seq<Node>)
    ensures |r| == |kids| && forall i :: 0 <= i < |kids| ==> r[i] == kids[i].node
  {
    seq(|kids|, i requires 0 <= i < |kids| => kids[i].node)
  }

  /** The record a stands for the attribute at site s, whatever its
      rendering. */
  predicate EntryAt(ename: string, a: AttributeEntry, s: Site, baseline: Node, depAttrs: set<(string, string)>)
  {
    NameOf(s.node) !in IgnoredAttributes && a.(rnc := None) == AttributeEntryOf(ename, s, baseline, depAttrs, None)
  }

  // ---------------------------------------------------------------------
  // the attribute loop

  /** Every record the attribute loop makes stands for one of the sites. */
  lemma {:induction false} AttributeEntriesSound(deprecated: set<string>, ns: NsNames, ename: string, sites: seq<Site>,
                                                  baseline: Node, depAttrs: set<(string, string)>)
    ensures var r := AttributeEntries(deprecated, ns, ename, sites, baseline, depAttrs);
            r.value.Success? ==> forall a :: a in r.value.value ==> exists s :: s in sites && EntryAt(ename, a, s, baseline, depAttrs)
    decreases |sites|
  {
    if sites != [] {
      var a := sites[0].node;
      var ns' := ns;
      var v: Option<Option<string>> := None;
      if NameOf(a) !in IgnoredAttributes && ChoiceValues(a) != [] {
        var first := Render(deprecated, ns, a.children[0]);
        ns' := first.ns;
        if first.value.Success? {
          v := Some(first.value.value);
        }
      }
      AttributeEntriesSound(deprecated, ns', ename, sites[1..], baseline, depAttrs);
      var r := AttributeEntries(deprecated, ns, ename, sites, baseline, depAttrs);
      var rest := AttributeEntries(deprecated, ns', ename, sites[1..], baseline, depAttrs);
      if r.value.Success? {
        assert rest.value.Success?;
        forall x | x in r.value.value ensures exists s :: s in sites && EntryAt(ename, x, s, baseline, depAttrs) {
          if x in rest.value.value {
            var s :| s in sites[1..] && EntryAt(ename, x, s, baseline, depAttrs);
            assert s in sites;
          } else {
            AttributeEntriesHead(deprecated, ns, ename, sites, baseline, depAttrs, v, ns', x);
          }
        }
      }
    }
  }

  /** A record of a successful loop that the rest of the loop did not make
      is the record of the first site. */
  lemma AttributeEntriesHead(deprecated: set<string>, ns: NsNames, ename: string, sites: seq<Site>,
                             baseline: Node, depAttrs: set<(string, string)>, v: Option<Option<string>>, ns': NsNames, x: AttributeEntry)
    requires sites != []
    requires var a := sites[0].node;
             if NameOf(a) !in IgnoredAttributes && ChoiceValues(a) != [] then
               var first := Render(deprecated, ns, a.children[0]);
               ns' == first.ns && (first.value.Success? ==> v == Some(first.value.value))
             else ns' == ns && v == None
    requires AttributeEntries(deprecated, ns, ename, sites, baseline, depAttrs).value.Success?
    requires x in AttributeEntries(deprecated, ns, ename, sites, baseline, depAttrs).value.value
    requires x !in AttributeEntries(deprecated, ns', ename, sites[1..], baseline, depAttrs).value.value
    ensures sites[0] in sites && EntryAt(ename, x, sites[0], baseline, depAttrs)
  {
    var entry := AttributeEntryOf(ename, sites[0], baseline, depAttrs, v);
    assert x == entry;
  }

  /** Every site whose name is not ignored has its record. */
  lemma {:induction false} AttributeEntriesComplete(deprecated: set<string>, ns: NsNames, ename: string, sites: seq<Site>,
                                                     baseline: Node, depAttrs: set<(string, string)>)
    ensures var r := AttributeEntries(deprecated, ns, ename, sites, baseline, depAttrs);
            r.value.Success? ==>
              forall s :: s in sites && NameOf(s.node) !in IgnoredAttributes ==>
                exists a :: a in r.value.value && EntryAt(ename, a, s, baseline, depAttrs)
    decreases |sites|
  {
    if sites != [] {
      var a := sites[0].node;
      var ns' := ns;
      var v: Option<Option<string>> := None;
      if NameOf(a) !in IgnoredAttributes && ChoiceValues(a) != [] {
        var first := Render(deprecated, ns, a.children[0]);
        ns' := first.ns;
        if first.value.Success? {
          v := Some(first.value.value);
        }
      }
      AttributeEntriesComplete(deprecated, ns', ename, sites[1..], baseline, depAttrs);
      var r := AttributeEntries(deprecated, ns, ename, sites, baseline, depAttrs);
      var rest := AttributeEntries(deprecated, ns', ename, sites[1..], baseline, depAttrs);
      if r.value.Success? {
        assert rest.value.Success?;
        assert forall x :: x in rest.value.value ==> x in r.value.value;
        forall s | s in sites && NameOf(s.node) !in IgnoredAttributes
          ensures exists x :: x in r.value.value && EntryAt(ename, x, s, baseline, depAttrs)
        {
          if s in sites[1..] {
            var x :| x in rest.value.value && EntryAt(ename, x, s, baseline, depAttrs);
            assert x in r.value.value;
          } else {
            assert s == sites[0];
            var entry := AttributeEntryOf(ename, sites[0], baseline, depAttrs, v);
            assert r.value.value == [entry] + rest.value.value;
            assert EntryAt(ename, entry, s, baseline, depAttrs);
          }
        }
      }
    }
  }

  // ---------------------------------------------------------------------
  // parents

  /** After `parents[c].add(e)` for every c in names, x is listed under c
      exactly when it was before or it is e and c is one of the names. */
  lemma {:induction false} AddParentMembers(p: Parents, names: seq<string>, e: string, c: string, x: string)
    ensures (c in AddParent(p, names, e) && x in AddParent(p, names, e)[c])
            <==> ((c in p && x in p[c]) || (c in names && x == e))
    decreases |names|
  {
    if names != [] {
      var c0 := names[0];
      var known := if c0 in p then p[c0] else [];
      AddParentMembers(p[c0 := if e in known then known else known + [e]], names[1..], e, c, x);
      assert forall y :: y in names <==> y == c0 || y in names[1..];
    }
  }

  /** The lists stay free of repeats, as the sets they stand for. */
  lemma {:induction false} AddParentDistinct(p: Parents, names: seq<string>, e: string)
    requires forall c :: c in p ==> Distinct(p[c])
    ensures forall c :: c in AddParent(p, names, e) ==> Distinct(AddParent(p, names, e)[c])
    decreases |names|
  {
    if names != [] {
      var c0 := names[0];
      var known := if c0 in p then p[c0] else [];
      var p' := p[c0 := if e in known then known else known + [e]];
      assert Distinct(known);
      assert Distinct(p'[c0]);
      assert forall c :: c in p' ==> Distinct(p'[c]);
      AddParentDistinct(p', names[1..], e);
      assert AddParent(p, names, e) == AddParent(p', names[1..], e);
    }
  }

  /** The child loop adds the element as a parent of each name it refers
      to when, and only when, one of its children qualifies. */
  lemma {:induction false} ChildEntriesParents(deprecated: set<string>, ns: NsNames, e: string, refs: seq<string>,
                                               cs: seq<Node>, p: Parents, c: string, x: string)
    ensures var r := ChildEntries(deprecated, ns, e, refs, cs, p);
            r.value.Success? ==>
              ((c in r.value.value.parents && x in r.value.value.parents[c])
               <==> ((c in p && x in p[c]) || (HasQualifying(cs) && c in refs && x == e)))
    decreases |cs|
  {
    if cs != [] {
      assert forall y :: y in cs <==> y == cs[0] || y in cs[1..];
      if !Qualifies(cs[0]) {
        ChildEntriesParents(deprecated, ns, e, refs, cs[1..], p, c, x);
        assert HasQualifying(cs) <==> HasQualifying(cs[1..]);
      } else {
        var first := Render(deprecated, ns, cs[0]);
        if first.value.Success? {
          var p' := AddParent(p, refs, e);
          ChildEntriesParents(deprecated, first.ns, e, refs, cs[1..], p', c, x);
          AddParentMembers(p, refs, e, c, x);
          assert HasQualifying(cs);
        }
      }
    }
  }

  /** The child loop records exactly the children that qualify, in order. */
  lemma {:induction false} ChildEntriesNodes(deprecated: set<string>, ns: NsNames, e: string, refs: seq<string>,
                                             cs: seq<Node>, p: Parents)
    ensures var r := ChildEntries(deprecated, ns, e, refs, cs, p);
            r.value.Success? ==> NodesOf(r.value.value.children) == Qualifying(cs)
    decreases |cs|
  {
    if cs != [] {
      if !Qualifies(cs[0]) {
        ChildEntriesNodes(deprecated, ns, e, refs, cs[1..], p);
      } else {
        var first := Render(deprecated, ns, cs[0]);
        if first.value.Success? {
          ChildEntriesNodes(deprecated, first.ns, e, refs, cs[1..], AddParent(p, refs, e));
        }
        ChildEntriesNodesStep(deprecated, ns, e, refs, cs, p);
      }
    }
  }

  /** The step of ChildEntriesNodes where the first child qualifies. */
  lemma ChildEntriesNodesStep(deprecated: set<string>, ns: NsNames, e: string, refs: seq<string>,
                              cs: seq<Node>, p: Parents)
    requires cs != [] && Qualifies(cs[0])
    requires var first := Render(deprecated, ns, cs[0]);
             var rest := ChildEntries(deprecated, first.ns, e, refs, cs[1..], AddParent(p, refs, e));
             first.value.Success? && rest.value.Success? ==> NodesOf(rest.value.value.children) == Qualifying(cs[1..])
    ensures var r := ChildEntries(deprecated, ns, e, refs, cs, p);
            r.value.Success? ==> NodesOf(r.value.value.children) == Qualifying(cs)
  {
    var first := Render(deprecated, ns, cs[0]);
    var rest := ChildEntries(deprecated, first.ns, e, refs, cs[1..], AddParent(p, refs, e));
    if first.value.Success? && rest.value.Success? {
      var kid := ChildEntry(cs[0], first.value.value);
      assert ChildEntries(deprecated, ns, e, refs, cs, p).value.value.children == [kid] + rest.value.value.children;
      assert Qualifying(cs) == [cs[0]] + Qualifying(cs[1..]);
      NodesOfCons(kid, rest.value.value.children);
    }
  }

  lemma NodesOfCons(kid: ChildEntry, kids: seq<ChildEntry>)
    ensures NodesOf([kid] + kids) == [kid.node] + NodesOf(kids)
  {
  }

  lemma {:induction false} ChildEntriesDistinct(deprecated: set<string>, ns: NsNames, e: string, refs: seq<string>,
                                                cs: seq<Node>, p: Parents)
    requires forall c :: c in p ==> Distinct(p[c])
    ensures var r := ChildEntries(deprecated, ns, e, refs, cs, p);
            r.value.Success? ==> forall c :: c in r.value.value.parents ==> Distinct(r.value.value.parents[c])
    decreases |cs|
  {
    if cs != [] {
      if !Qualifies(cs[0]) {
        ChildEntriesDistinct(deprecated, ns, e, refs, cs[1..], p);
      } else {
        var first := Render(deprecated, ns, cs[0]);
        if first.value.Success? {
          AddParentDistinct(p, refs, e);
          ChildEntriesDistinct(deprecated, first.ns, e, refs, cs[1..], AddParent(p, refs, e));
        }
      }
    }
  }

  // ---------------------------------------------------------------------
  // the loop over the definitions

  /** Each record of atts stands for an attribute site of d. It is
      written record by record rather than as one quantifier, so that it
      can sit beside the converse (each site has its record) without the
      two feeding each other; EverySitedIff gives the quantified form. */
  predicate EverySited(k: string, atts: seq<AttributeEntry>, d: Node, baseline: Node, depAttrs: set<(string, string)>)
    decreases |atts|
  {
    atts == [] ||
    ((exists s :: s in AttributeSites(d) && EntryAt(k, atts[0], s, baseline, depAttrs)) &&
     EverySited(k, atts[1..], d, baseline, depAttrs))
  }

  lemma {:induction false} EverySitedIff(k: string, atts: seq<AttributeEntry>, d: Node, baseline: Node, depAttrs: set<(string, string)>)
    ensures EverySited(k, atts, d, baseline, depAttrs) <==>
            forall a :: a in atts ==> exists s :: s in AttributeSites(d) && EntryAt(k, a, s, baseline, depAttrs)
    decreases |atts|
  {
    if atts != [] {
      EverySitedIff(k, atts[1..], d, baseline, depAttrs);
      if EverySited(k, atts, d, baseline, depAttrs) {
        forall a | a in atts ensures exists s :: s in AttributeSites(d) && EntryAt(k, a, s, baseline, depAttrs) {
          if a != atts[0] {
            assert a in atts[1..];
          }
        }
      }
      if forall a :: a in atts ==> exists s :: s in AttributeSites(d) && EntryAt(k, a, s, baseline, depAttrs) {
        assert atts[0] in atts;
        forall a | a in atts[1..] ensures exists s :: s in AttributeSites(d) && EntryAt(k, a, s, baseline, depAttrs) {
          assert a in atts;
        }
      }
    }
  }

  /** The attribute list of e is that of the definition d: each record
      stands for an attribute site of d, and each site of d whose name is
      not ignored has its record. */
  predicate FromDef(k: string, e: ElementEntry, d: Node, baseline: Node, depAttrs: set<(string, string)>)
  {
    NameOf(d) == k &&
    EverySited(k, e.attributes, d, baseline, depAttrs) &&
    (forall s :: s in AttributeSites(d) && NameOf(s.node) !in IgnoredAttributes ==>
       exists a :: a in e.attributes && EntryAt(k, a, s, baseline, depAttrs))
  }

  /** What holds of a record the definition loop made for name k out of
      the definitions U, before its parents are filled in. */
  predicate EntryOK(k: string, e: ElementEntry, U: seq<Node>, baseline: Node, depAttrs: set<(string, string)>)
  {
    e.parents == [] &&
    (e.isNew <==> !DefinesElement(baseline, k)) &&
    SortedBy(e.attributes, AttributeName) &&
    (e.deprecatedAttributes <==> exists i :: 0 <= i < |e.attributes| && e.attributes[i].deprecated) &&
    exists d :: d in U && FromDef(k, e, d, baseline, depAttrs)
  }

  /** The children of a record are the qualifying children of a
      definition of its name, and its rendering joins theirs. */
  predicate KidsOK(k: string, e: ElementEntry, U: seq<Node>)
  {
    e.rnc == Join(", ", Present(ChildRenderings(e.children))) &&
    exists d :: d in U && NameOf(d) == k && NodesOf(e.children) == Qualifying(d.children)
  }

  /** x is listed as a parent of c: some definition named x has a child
      that qualifies and refers to c somewhere below. */
  predicate ParentOK(U: seq<Node>, c: string, x: string)
  {
    exists d :: d in U && NameOf(d) == x && HasQualifying(d.children) && c in RefNames(d)
  }

  lemma EntryOfOK(d: Node, U: seq<Node>, baseline: Node, depAttrs: set<(string, string)>,
                  aes: seq<AttributeEntry>, kids: seq<ChildEntry>)
    requires d in U
    requires EverySited(NameOf(d), aes, d, baseline, depAttrs)
    requires forall s :: s in AttributeSites(d) && NameOf(s.node) !in IgnoredAttributes ==>
               exists a :: a in aes && EntryAt(NameOf(d), a, s, baseline, depAttrs)
    ensures EntryOK(NameOf(d), ElementEntryOf(!DefinesElement(baseline, NameOf(d)), aes, kids), U, baseline, depAttrs)
  {
    SortBySorted(aes, AttributeName);
    SortedFromDef(d, baseline, depAttrs, !DefinesElement(baseline, NameOf(d)), aes, kids);
  }

  lemma SortedFromDef(d: Node, baseline: Node, depAttrs: set<(string, string)>,
                      isNew: bool, aes: seq<AttributeEntry>, kids: seq<ChildEntry>)
    requires EverySited(NameOf(d), aes, d, baseline, depAttrs)
    requires forall s :: s in AttributeSites(d) && NameOf(s.node) !in IgnoredAttributes ==>
               exists a :: a in aes && EntryAt(NameOf(d), a, s, baseline, depAttrs)
    ensures FromDef(NameOf(d), ElementEntryOf(isNew, aes, kids), d, baseline, depAttrs)
  {
    SortedSited(NameOf(d), aes, d, baseline, depAttrs);
    SortedCovered(NameOf(d), aes, d, baseline, depAttrs);
  }

  /** Sorting keeps the records, so it keeps them standing for sites. */
  lemma SortedSited(k: string, aes: seq<AttributeEntry>, d: Node, baseline: Node, depAttrs: set<(string, string)>)
    requires EverySited(k, aes, d, baseline, depAttrs)
    ensures EverySited(k, SortBy(aes, AttributeName), d, baseline, depAttrs)
  {
    SortByMembers(aes);
    EverySitedIff(k, aes, d, baseline, depAttrs);
    EverySitedIff(k, SortBy(aes, AttributeName), d, baseline, depAttrs);
  }

  /** Sorting keeps the records, so each site still has its record. */
  lemma SortedCovered(k: string, aes: seq<AttributeEntry>, d: Node, baseline: Node, depAttrs: set<(string, string)>)
    requires forall s :: s in AttributeSites(d) && NameOf(s.node) !in IgnoredAttributes ==>
               exists a :: a in aes && EntryAt(k, a, s, baseline, depAttrs)
    ensures forall s :: s in AttributeSites(d) && NameOf(s.node) !in IgnoredAttributes ==>
              exists a :: a in SortBy(aes, AttributeName) && EntryAt(k, a, s, baseline, depAttrs)
  {
    SortByMembers(aes);
  }

  lemma SortByMembers(aes: seq<AttributeEntry>)
    ensures forall a :: a in SortBy(aes, AttributeName) <==> a in aes
  {
    SortByPermutes(aes, AttributeName);
    forall a ensures a in SortBy(aes, AttributeName) <==> a in aes {
      assert a in SortBy(aes, AttributeName) <==> a in multiset(SortBy(aes, AttributeName));
      assert a in aes <==> a in multiset(aes);
    }
  }

  /** The table after the definition d, when its two loops succeed. */
  function NextTable(deprecated: set<string>, ns: NsNames, d: Node, baseline: Node,
                     depAttrs: set<(string, string)>, t: Table): Table
  {
    var ename := NameOf(d);
    var attrs := AttributeEntries(deprecated, ns, ename, AttributeSites(d), baseline, depAttrs);
    var kids := ChildEntries(deprecated, attrs.ns, ename, RefNames(d), d.children, t.parents);
    if attrs.value.Success? && kids.value.Success? then
      Table(t.elements[ename := ElementEntryOf(!DefinesElement(baseline, ename), attrs.value.value, kids.value.value.children)],
            kids.value.value.parents)
    else t
  }

  function NextNs(deprecated: set<string>, ns: NsNames, d: Node, baseline: Node,
                  depAttrs: set<(string, string)>, t: Table): NsNames
  {
    var attrs := AttributeEntries(deprecated, ns, NameOf(d), AttributeSites(d), baseline, depAttrs);
    ChildEntries(deprecated, attrs.ns, NameOf(d), RefNames(d), d.children, t.parents).ns
  }

  /** One turn of the loop: a loop that succeeds went through the first
      definition's two loops successfully and went on from there. */
  lemma DefinitionsStep(deprecated: set<string>, ns: NsNames, defs: seq<Node>, baseline: Node,
                        depAttrs: set<(string, string)>, t: Table)
    requires defs != []
    requires Definitions(deprecated, ns, defs, baseline, depAttrs, t).value.Success?
    ensures var d := defs[0];
            var attrs := AttributeEntries(deprecated, ns, NameOf(d), AttributeSites(d), baseline, depAttrs);
            attrs.value.Success? &&
            ChildEntries(deprecated, attrs.ns, NameOf(d), RefNames(d), d.children, t.parents).value.Success? &&
            Definitions(deprecated, ns, defs, baseline, depAttrs, t)
              == Definitions(deprecated, NextNs(deprecated, ns, d, baseline, depAttrs, t), defs[1..], baseline, depAttrs,
                             NextTable(deprecated, ns, d, baseline, depAttrs, t))
  {
  }

  /** The records the loop leaves: the ones it started with, and one per
      name of the definitions it walked. */
  lemma {:induction false} DefinitionsKeys(deprecated: set<string>, ns: NsNames, defs: seq<Node>, baseline: Node,
                                           depAttrs: set<(string, string)>, t: Table)
    ensures var r := Definitions(deprecated, ns, defs, baseline, depAttrs, t);
            r.value.Success? ==>
              forall k :: k in r.value.value.elements <==> k in t.elements || exists d :: d in defs && NameOf(d) == k
    decreases |defs|
  {
    var r := Definitions(deprecated, ns, defs, baseline, depAttrs, t);
    if defs != [] && r.value.Success? {
      DefinitionsStep(deprecated, ns, defs, baseline, depAttrs, t);
      NextTableKeys(deprecated, ns, defs[0], baseline, depAttrs, t);
      DefinitionsKeys(deprecated, NextNs(deprecated, ns, defs[0], baseline, depAttrs, t), defs[1..], baseline, depAttrs,
                      NextTable(deprecated, ns, defs[0], baseline, depAttrs, t));
      assert forall d :: d in defs <==> d == defs[0] || d in defs[1..];
    }
  }

  /** A turn that succeeds adds the record of its definition's name. */
  lemma NextTableKeys(deprecated: set<string>, ns: NsNames, d: Node, baseline: Node,
                      depAttrs: set<(string, string)>, t: Table)
    requires AttributeEntries(deprecated, ns, NameOf(d), AttributeSites(d), baseline, depAttrs).value.Success?
    requires ChildEntries(deprecated, AttributeEntries(deprecated, ns, NameOf(d), AttributeSites(d), baseline, depAttrs).ns,
                          NameOf(d), RefNames(d), d.children, t.parents).value.Success?
    ensures NextTable(deprecated, ns, d, baseline, depAttrs, t).elements.Keys == t.elements.Keys + {NameOf(d)}
  {
  }

  /** The records the attribute loop makes for d stand for sites of d. */
  lemma AttributeLoopSited(deprecated: set<string>, ns: NsNames, d: Node, baseline: Node, depAttrs: set<(string, string)>)
    ensures var r := AttributeEntries(deprecated, ns, NameOf(d), AttributeSites(d), baseline, depAttrs);
            r.value.Success? ==> EverySited(NameOf(d), r.value.value, d, baseline, depAttrs)
  {
    var r := AttributeEntries(deprecated, ns, NameOf(d), AttributeSites(d), baseline, depAttrs);
    AttributeEntriesSound(deprecated, ns, NameOf(d), AttributeSites(d), baseline, depAttrs);
    if r.value.Success? {
      EverySitedIff(NameOf(d), r.value.value, d, baseline, depAttrs);
    }
  }

  lemma {:induction false} DefinitionsEntries(deprecated: set<string>, ns: NsNames, defs: seq<Node>, baseline: Node,
                                              depAttrs: set<(string, string)>, t: Table, U: seq<Node>)
    requires forall d :: d in defs ==> d in U
    requires forall k :: k in t.elements ==> EntryOK(k, t.elements[k], U, baseline, depAttrs)
    ensures var r := Definitions(deprecated, ns, defs, baseline, depAttrs, t);
            r.value.Success? ==> forall k :: k in r.value.value.elements ==> EntryOK(k, r.value.value.elements[k], U, baseline, depAttrs)
    decreases |defs|
  {
    var r := Definitions(deprecated, ns, defs, baseline, depAttrs, t);
    if defs != [] && r.value.Success? {
      var element := defs[0];
      var ename := NameOf(element);
      DefinitionsStep(deprecated, ns, defs, baseline, depAttrs, t);
      var attrs := AttributeEntries(deprecated, ns, ename, AttributeSites(element), baseline, depAttrs);
      var kids := ChildEntries(deprecated, attrs.ns, ename, RefNames(element), element.children, t.parents);
      var entry := ElementEntryOf(!DefinesElement(baseline, ename), attrs.value.value, kids.value.value.children);
      var t' := NextTable(deprecated, ns, element, baseline, depAttrs, t);
      assert t'.elements == t.elements[ename := entry];
      AttributeLoopSited(deprecated, ns, element, baseline, depAttrs);
      AttributeEntriesComplete(deprecated, ns, ename, AttributeSites(element), baseline, depAttrs);
      EntryOfOK(element, U, baseline, depAttrs, attrs.value.value, kids.value.value.children);
      forall k | k in t'.elements ensures EntryOK(k, t'.elements[k], U, baseline, depAttrs) {
        if k != ename {
          assert t'.elements[k] == t.elements[k];
        }
      }
      DefinitionsEntries(deprecated, NextNs(deprecated, ns, element, baseline, depAttrs, t), defs[1..], baseline, depAttrs, t', U);
    }
  }

  lemma {:induction false} DefinitionsKids(deprecated: set<string>, ns: NsNames, defs: seq<Node>, baseline: Node,
                                           depAttrs: set<(string, string)>, t: Table, U: seq<Node>)
    requires forall d :: d in defs ==> d in U
    requires forall k :: k in t.elements ==> KidsOK(k, t.elements[k], U)
    ensures var r := Definitions(deprecated, ns, defs, baseline, depAttrs, t);
            r.value.Success? ==> forall k :: k in r.value.value.elements ==> KidsOK(k, r.value.value.elements[k], U)
    decreases |defs|
  {
    var r := Definitions(deprecated, ns, defs, baseline, depAttrs, t);
    if defs != [] && r.value.Success? {
      var element := defs[0];
      var ename := NameOf(element);
      DefinitionsStep(deprecated, ns, defs, baseline, depAttrs, t);
      var attrs := AttributeEntries(deprecated, ns, ename, AttributeSites(element), baseline, depAttrs);
      var kids := ChildEntries(deprecated, attrs.ns, ename, RefNames(element), element.children, t.parents);
      var entry := ElementEntryOf(!DefinesElement(baseline, ename), attrs.value.value, kids.value.value.children);
      var t' := NextTable(deprecated, ns, element, baseline, depAttrs, t);
      assert t'.elements == t.elements[ename := entry];
      ChildEntriesNodes(deprecated, attrs.ns, ename, RefNames(element), element.children, t.parents);
      assert KidsOK(ename, entry, U);
      forall k | k in t'.elements ensures KidsOK(k, t'.elements[k], U) {
        if k != ename {
          assert t'.elements[k] == t.elements[k];
        }
      }
      DefinitionsKids(deprecated, NextNs(deprecated, ns, element, baseline, depAttrs, t), defs[1..], baseline, depAttrs, t', U);
    }
  }

  /** The parent lists the definition loop leaves after one turn: exactly
      those it had, plus the first definition's name under each name it
      refers to when one of its children qualifies. */
  lemma NextParents(deprecated: set<string>, ns: NsNames, defs: seq<Node>, baseline: Node,
                    depAttrs: set<(string, string)>, t: Table, c: string, x: string)
    requires defs != []
    requires Definitions(deprecated, ns, defs, baseline, depAttrs, t).value.Success?
    ensures var p := NextTable(deprecated, ns, defs[0], baseline, depAttrs, t).parents;
            (c in p && x in p[c]) <==>
            ((c in t.parents && x in t.parents[c]) || (HasQualifying(defs[0].children) && c in RefNames(defs[0]) && x == NameOf(defs[0])))
  {
    var element := defs[0];
    var ename := NameOf(element);
    DefinitionsStep(deprecated, ns, defs, baseline, depAttrs, t);
    var attrs := AttributeEntries(deprecated, ns, ename, AttributeSites(element), baseline, depAttrs);
    ChildEntriesParents(deprecated, attrs.ns, ename, RefNames(element), element.children, t.parents, c, x);
  }

  /** Every parent the loop lists is justified by a definition. */
  lemma {:induction false} DefinitionsParentsSound(deprecated: set<string>, ns: NsNames, defs: seq<Node>, baseline: Node,
                                                   depAttrs: set<(string, string)>, t: Table, U: seq<Node>)
    requires forall d :: d in defs ==> d in U
    requires forall c, x :: c in t.parents && x in t.parents[c] ==> ParentOK(U, c, x)
    ensures var r := Definitions(deprecated, ns, defs, baseline, depAttrs, t);
            r.value.Success? ==>
              forall c, x :: c in r.value.value.parents && x in r.value.value.parents[c] ==> ParentOK(U, c, x)
    decreases |defs|
  {
    var r := Definitions(deprecated, ns, defs, baseline, depAttrs, t);
    if defs != [] && r.value.Success? {
      DefinitionsStep(deprecated, ns, defs, baseline, depAttrs, t);
      var t' := NextTable(deprecated, ns, defs[0], baseline, depAttrs, t);
      assert defs[0] in U;
      forall c, x | c in t'.parents && x in t'.parents[c] ensures ParentOK(U, c, x) {
        NextParents(deprecated, ns, defs, baseline, depAttrs, t, c, x);
      }
      DefinitionsParentsSound(deprecated, NextNs(deprecated, ns, defs[0], baseline, depAttrs, t), defs[1..], baseline, depAttrs, t', U);
    }
  }

  /** No parent list has a repeat. */
  lemma {:induction false} DefinitionsParentsDistinct(deprecated: set<string>, ns: NsNames, defs: seq<Node>, baseline: Node,
                                                      depAttrs: set<(string, string)>, t: Table)
    requires forall c :: c in t.parents ==> Distinct(t.parents[c])
    ensures var r := Definitions(deprecated, ns, defs, baseline, depAttrs, t);
            r.value.Success? ==> forall c :: c in r.value.value.parents ==> Distinct(r.value.value.parents[c])
    decreases |defs|
  {
    var r := Definitions(deprecated, ns, defs, baseline, depAttrs, t);
    if defs != [] && r.value.Success? {
      DefinitionsStep(deprecated, ns, defs, baseline, depAttrs, t);
      var attrs := AttributeEntries(deprecated, ns, NameOf(defs[0]), AttributeSites(defs[0]), baseline, depAttrs);
      ChildEntriesDistinct(deprecated, attrs.ns, NameOf(defs[0]), RefNames(defs[0]), defs[0].children, t.parents);
      var t' := NextTable(deprecated, ns, defs[0], baseline, depAttrs, t);
      DefinitionsParentsDistinct(deprecated, NextNs(deprecated, ns, defs[0], baseline, depAttrs, t), defs[1..], baseline, depAttrs, t');
    }
  }

  /** What was listed stays listed. */
  lemma {:induction false} DefinitionsParentsKept(deprecated: set<string>, ns: NsNames, defs: seq<Node>, baseline: Node,
                                                  depAttrs: set<(string, string)>, t: Table, c: string, x: string)
    requires c in t.parents && x in t.parents[c]
    ensures var r := Definitions(deprecated, ns, defs, baseline, depAttrs, t);
            r.value.Success? ==> c in r.value.value.parents && x in r.value.value.parents[c]
    decreases |defs|
  {
    var r := Definitions(deprecated, ns, defs, baseline, depAttrs, t);
    if defs != [] && r.value.Success? {
      DefinitionsStep(deprecated, ns, defs, baseline, depAttrs, t);
      NextParents(deprecated, ns, defs, baseline, depAttrs, t, c, x);
      var t' := NextTable(deprecated, ns, defs[0], baseline, depAttrs, t);
      DefinitionsParentsKept(deprecated, NextNs(deprecated, ns, defs[0], baseline, depAttrs, t), defs[1..], baseline, depAttrs, t', c, x);
    }
  }

  /** Every definition with a qualifying child is listed under each name
      it refers to. */
  lemma {:induction false} DefinitionsParentsComplete(deprecated: set<string>, ns: NsNames, defs: seq<Node>, baseline: Node,
                                                      depAttrs: set<(string, string)>, t: Table, d: Node, c: string)
    requires d in defs && HasQualifying(d.children) && c in RefNames(d)
    ensures var r := Definitions(deprecated, ns, defs, baseline, depAttrs, t);
            r.value.Success? ==> c in r.value.value.parents && NameOf(d) in r.value.value.parents[c]
    decreases |defs|
  {
    var r := Definitions(deprecated, ns, defs, baseline, depAttrs, t);
    if r.value.Success? {
      DefinitionsStep(deprecated, ns, defs, baseline, depAttrs, t);
      var ns' := NextNs(deprecated, ns, defs[0], baseline, depAttrs, t);
      var t' := NextTable(deprecated, ns, defs[0], baseline, depAttrs, t);
      if d == defs[0] {
        NextParents(deprecated, ns, defs, baseline, depAttrs, t, c, NameOf(d));
        DefinitionsParentsKept(deprecated, ns', defs[1..], baseline, depAttrs, t', c, NameOf(d));
      } else {
        assert d in defs[1..];
        DefinitionsParentsComplete(deprecated, ns', defs[1..], baseline, depAttrs, t', d, c);
      }
    }
  }

  // ---------------------------------------------------------------------
  // the catalog

  /** The table the definition loop of `get_elements` leaves. */
  function Built(schema: Node, baseline: Node, deprecated: set<string>, depAttrs: set<(string, string)>): Step<Table>
  {
    Definitions(deprecated, Render(deprecated, map[], schema).ns, ElementDefs(schema), baseline, depAttrs, Table(map[], map[]))
  }

  lemma BuiltCatalog(schema: Node, baseline: Node, deprecated: set<string>, depAttrs: set<(string, string)>)
    requires Elements(schema, baseline, deprecated, depAttrs).Success?
    ensures Built(schema, baseline, deprecated, depAttrs).value.Success?
    ensures var t := Built(schema, baseline, deprecated, depAttrs).value.value;
            Elements(schema, baseline, deprecated, depAttrs).value == WithParents(t.elements, t.parents)
  {
  }

  /** The catalog has a record for a name exactly when some element
      definition at the top of the grammar has that name. */
  lemma CatalogNames(schema: Node, baseline: Node, deprecated: set<string>, depAttrs: set<(string, string)>, k: string)
    requires Elements(schema, baseline, deprecated, depAttrs).Success?
    ensures k in Elements(schema, baseline, deprecated, depAttrs).value <==> exists d :: d in ElementDefs(schema) && NameOf(d) == k
  {
    BuiltCatalog(schema, baseline, deprecated, depAttrs);
    DefinitionsKeys(deprecated, Render(deprecated, map[], schema).ns, ElementDefs(schema), baseline, depAttrs, Table(map[], map[]));
  }

  /** What the record a says about the attribute at site s below element
      k: its name, never an ignored one; required exactly when the parent is
      not `optional`; a default exactly when the annotation is a non-empty
      text, and then that text; new exactly when the baseline has no such
      attribute under k; deprecated exactly when the pair is listed; one
      choice per `choice/value` of the attribute, in order, with its text. */
  predicate Describes(k: string, a: AttributeEntry, s: Site, baseline: Node, depAttrs: set<(string, string)>)
  {
    a.name == NameOf(s.node) && a.name !in IgnoredAttributes &&
    (a.required <==> s.parentTag != Optional) &&
    (a.default.Some? <==> Truthy(Attr(s.node, DefaultValueKey))) &&
    (a.default.Some? ==> a.default == Attr(s.node, DefaultValueKey)) &&
    (a.isNew <==> !DefinesAttribute(baseline, k, a.name)) &&
    (a.deprecated <==> (k, a.name) in depAttrs) &&
    |a.choices| == |ChoiceValues(s.node)| &&
    forall i :: 0 <= i < |a.choices| ==> a.choices[i].value == ChoiceValues(s.node)[i].text
  }

  /** Each record of atts describes an attribute site of d; written
      record by record for the reason given at EverySited, and equal to
      the quantified form by EveryDescribedIff. */
  predicate EveryDescribed(k: string, atts: seq<AttributeEntry>, d: Node, baseline: Node, depAttrs: set<(string, string)>)
    decreases |atts|
  {
    atts == [] ||
    ((exists s :: s in AttributeSites(d) && Describes(k, atts[0], s, baseline, depAttrs)) &&
     EveryDescribed(k, atts[1..], d, baseline, depAttrs))
  }

  lemma {:induction false} EveryDescribedIff(k: string, atts: seq<AttributeEntry>, d: Node, baseline: Node, depAttrs: set<(string, string)>)
    ensures EveryDescribed(k, atts, d, baseline, depAttrs) <==>
            forall a :: a in atts ==> exists s :: s in AttributeSites(d) && Describes(k, a, s, baseline, depAttrs)
    decreases |atts|
  {
    if atts != [] {
      EveryDescribedIff(k, atts[1..], d, baseline, depAttrs);
      if EveryDescribed(k, atts, d, baseline, depAttrs) {
        forall a | a in atts ensures exists s :: s in AttributeSites(d) && Describes(k, a, s, baseline, depAttrs) {
          if a != atts[0] {
            assert a in atts[1..];
          }
        }
      }
      if forall a :: a in atts ==> exists s :: s in AttributeSites(d) && Describes(k, a, s, baseline, depAttrs) {
        assert atts[0] in atts;
        forall a | a in atts[1..] ensures exists s :: s in AttributeSites(d) && Describes(k, a, s, baseline, depAttrs) {
          assert a in atts;
        }
      }
    }
  }

  /** A record lists its attributes sorted by name; it is deprecated-flagged
      exactly when one of its attributes is, and new exactly when the
      baseline has no element of that name. Its attributes are those of one
      definition d of the element: each record describes an attribute
      found below d (EveryDescribed), and each attribute below d whose name
      is not ignored has a record describing it. */
  lemma CatalogAttributes(schema: Node, baseline: Node, deprecated: set<string>, depAttrs: set<(string, string)>, k: string)
    requires Elements(schema, baseline, deprecated, depAttrs).Success?
    requires k in Elements(schema, baseline, deprecated, depAttrs).value
    ensures var e := Elements(schema, baseline, deprecated, depAttrs).value[k];
            (e.isNew <==> !DefinesElement(baseline, k)) &&
            SortedBy(e.attributes, AttributeName) &&
            (e.deprecatedAttributes <==> exists i :: 0 <= i < |e.attributes| && e.attributes[i].deprecated) &&
            exists d :: d in ElementDefs(schema) && NameOf(d) == k &&
              EveryDescribed(k, e.attributes, d, baseline, depAttrs) &&
              (forall s :: s in AttributeSites(d) && NameOf(s.node) !in IgnoredAttributes ==>
                 exists a :: a in e.attributes && Describes(k, a, s, baseline, depAttrs))
  {
    var U := ElementDefs(schema);
    var e := Elements(schema, baseline, deprecated, depAttrs).value[k];
    CatalogEntry(schema, baseline, deprecated, depAttrs, k);
    var e0 := e.(parents := []);
    assert EntryOK(k, e0, U, baseline, depAttrs);
    var d :| d in U && FromDef(k, e0, d, baseline, depAttrs);
    assert e0.attributes == e.attributes;
    EverySitedDescribed(k, e.attributes, d, baseline, depAttrs);
    SitesDescribed(k, e.attributes, d, baseline, depAttrs);
  }

  lemma {:induction false} EverySitedDescribed(k: string, atts: seq<AttributeEntry>, d: Node, baseline: Node, depAttrs: set<(string, string)>)
    requires EverySited(k, atts, d, baseline, depAttrs)
    ensures EveryDescribed(k, atts, d, baseline, depAttrs)
    decreases |atts|
  {
    if atts != [] {
      var s :| s in AttributeSites(d) && EntryAt(k, atts[0], s, baseline, depAttrs);
      EntryAtFields(k, atts[0], s, baseline, depAttrs);
      EverySitedDescribed(k, atts[1..], d, baseline, depAttrs);
    }
  }

  lemma SitesDescribed(k: string, atts: seq<AttributeEntry>, d: Node, baseline: Node, depAttrs: set<(string, string)>)
    requires forall s :: s in AttributeSites(d) && NameOf(s.node) !in IgnoredAttributes ==>
               exists a :: a in atts && EntryAt(k, a, s, baseline, depAttrs)
    ensures forall s :: s in AttributeSites(d) && NameOf(s.node) !in IgnoredAttributes ==>
              exists a :: a in atts && Describes(k, a, s, baseline, depAttrs)
  {
    forall s | s in AttributeSites(d) && NameOf(s.node) !in IgnoredAttributes
      ensures exists a :: a in atts && Describes(k, a, s, baseline, depAttrs)
    {
      var a :| a in atts && EntryAt(k, a, s, baseline, depAttrs);
      EntryAtFields(k, a, s, baseline, depAttrs);
    }
  }

  /** The record of name k, parents aside, is one the definition loop
      vouches for. */
  lemma CatalogEntry(schema: Node, baseline: Node, deprecated: set<string>, depAttrs: set<(string, string)>, k: string)
    requires Elements(schema, baseline, deprecated, depAttrs).Success?
    requires k in Elements(schema, baseline, deprecated, depAttrs).value
    ensures EntryOK(k, Elements(schema, baseline, deprecated, depAttrs).value[k].(parents := []), ElementDefs(schema), baseline, depAttrs)
  {
    BuiltCatalog(schema, baseline, deprecated, depAttrs);
    var U := ElementDefs(schema);
    var t := Built(schema, baseline, deprecated, depAttrs).value.value;
    DefinitionsEntries(deprecated, Render(deprecated, map[], schema).ns, U, baseline, depAttrs, Table(map[], map[]), U);
    assert EntryOK(k, t.elements[k], U, baseline, depAttrs);
    assert Elements(schema, baseline, deprecated, depAttrs).value[k].(parents := []) == t.elements[k];
  }

  /** What a record standing for site s says about s. */
  lemma EntryAtFields(k: string, a: AttributeEntry, s: Site, baseline: Node, depAttrs: set<(string, string)>)
    requires EntryAt(k, a, s, baseline, depAttrs)
    ensures Describes(k, a, s, baseline, depAttrs)
  {
    var b := AttributeEntryOf(k, s, baseline, depAttrs, None);
    assert a.(rnc := None) == b;
    assert a.name == b.name && a.required == b.required && a.default == b.default && a.deprecated == b.deprecated;
    assert a.isNew == b.isNew && a.choices == b.choices;
  }

  /** A record lists, in order, the children of a definition of its name
      that are not attributes and have no attribute child, and its
      rendering is theirs joined by ", " with the empty ones left out. */
  lemma CatalogChildren(schema: Node, baseline: Node, deprecated: set<string>, depAttrs: set<(string, string)>, k: string)
    requires Elements(schema, baseline, deprecated, depAttrs).Success?
    requires k in Elements(schema, baseline, deprecated, depAttrs).value
    ensures var e := Elements(schema, baseline, deprecated, depAttrs).value[k];
            (exists d :: d in ElementDefs(schema) && NameOf(d) == k && NodesOf(e.children) == Qualifying(d.children)) &&
            e.rnc == Join(", ", Present(ChildRenderings(e.children)))
  {
    BuiltCatalog(schema, baseline, deprecated, depAttrs);
    var U := ElementDefs(schema);
    var t := Built(schema, baseline, deprecated, depAttrs).value.value;
    DefinitionsKids(deprecated, Render(deprecated, map[], schema).ns, U, baseline, depAttrs, Table(map[], map[]), U);
    assert KidsOK(k, t.elements[k], U);
  }

  /** The parents of a record are sorted without repeats, and are exactly
      the names of the definitions that have a qualifying child and refer
      to the record's name somewhere below. */
  lemma CatalogParents(schema: Node, baseline: Node, deprecated: set<string>, depAttrs: set<(string, string)>, k: string)
    requires Elements(schema, baseline, deprecated, depAttrs).Success?
    requires k in Elements(schema, baseline, deprecated, depAttrs).value
    ensures var ps := Elements(schema, baseline, deprecated, depAttrs).value[k].parents;
            (forall i, j :: 0 <= i < j < |ps| ==> Below(ps[i], ps[j]) && ps[i] != ps[j]) &&
            forall p :: p in ps <==>
              exists d :: d in ElementDefs(schema) && NameOf(d) == p && HasQualifying(d.children) && RefBelow(d.children, k)
  {
    BuiltCatalog(schema, baseline, deprecated, depAttrs);
    var U := ElementDefs(schema);
    var ns := Render(deprecated, map[], schema).ns;
    var t := Built(schema, baseline, deprecated, depAttrs).value.value;
    var empty := Table(map[], map[]);
    DefinitionsEntries(deprecated, ns, U, baseline, depAttrs, empty, U);
    DefinitionsParentsSound(deprecated, ns, U, baseline, depAttrs, empty, U);
    DefinitionsParentsDistinct(deprecated, ns, U, baseline, depAttrs, empty);
    assert EntryOK(k, t.elements[k], U, baseline, depAttrs);
    var ps := Elements(schema, baseline, deprecated, depAttrs).value[k].parents;
    forall d | d in U && HasQualifying(d.children) && RefBelow(d.children, k)
      ensures k in t.parents && NameOf(d) in t.parents[k]
    {
      RefNamesBelow(d, k);
      DefinitionsParentsComplete(deprecated, ns, U, baseline, depAttrs, empty, d, k);
    }
    forall p ensures ParentOK(U, k, p) <==> exists d :: d in U && NameOf(d) == p && HasQualifying(d.children) && RefBelow(d.children, k) {
      forall d | d in U {
        RefNamesBelow(d, k);
      }
    }
    if k in t.parents {
      assert ps == SortBy(t.parents[k], Identity);
      SortDistinct(t.parents[k]);
    } else {
      assert ps == [];
    }
  }
}
