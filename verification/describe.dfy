/** The description pass of `DocWriter.process` (cli/xml2rfc/writers/doc.py)
    and the `capfirst` template filter. The descriptions, read from a YAML
    file by the source, are a parameter here: a map from key to text. */
module Describe {
  import opened Wrappers
  import opened Strings
  import opened Catalog

  /** `descriptions.get(key, None)` */
  function Lookup(descriptions: map<string, string>, key: string): (r: Option<string>)
    ensures r.Some? <==> key in descriptions
    ensures r.Some? ==> r.value == descriptions[key]
  {
    if key in descriptions then Some(descriptions[key]) else None
  }

  /** `'%s[%s]' % (n, a)` */
  function AttributeKey(n: string, a: string): string
  {
    n + "[" + a + "]"
  }

  /** `'%s[%s="%s"]' % (n, a, c)`, where a missing value prints as None. */
  function ChoiceKey(n: string, a: string, c: Option<string>): string
  {
    n + "[" + a + "=\"" + Show(c) + "\"]"
  }

  function DescribeChoice(descriptions: map<string, string>, n: string, a: string, ch: ChoiceEntry): ChoiceEntry
  {
    ch.(description := Lookup(descriptions, ChoiceKey(n, a, ch.value)))
  }

  function DescribeChoices(descriptions: map<string, string>, n: string, a: string, cs: seq<ChoiceEntry>): (r: seq<ChoiceEntry>)
    ensures |r| == |cs|
  {
    seq(|cs|, i requires 0 <= i < |cs| => DescribeChoice(descriptions, n, a, cs[i]))
  }

  /** `any(ddd['description'] for ddd in choices)` */
  predicate AnyDescribed(cs: seq<ChoiceEntry>)
  {
    exists i :: 0 <= i < |cs| && Truthy(cs[i].description)
  }

  /** One attribute record of element n with its description, its choices'
      descriptions and the flag saying whether any choice has one. */
  function DescribeAttribute(descriptions: map<string, string>, n: string, at: AttributeEntry): AttributeEntry
  {
    var cs := DescribeChoices(descriptions, n, at.name, at.choices);
    at.(description := Lookup(descriptions, AttributeKey(n, at.name)), choices := cs, choiceDescriptions := AnyDescribed(cs))
  }

  function DescribeAttributes(descriptions: map<string, string>, n: string, attrs: seq<AttributeEntry>): (r: seq<AttributeEntry>)
    ensures |r| == |attrs|
  {
    seq(|attrs|, i requires 0 <= i < |attrs| => DescribeAttribute(descriptions, n, attrs[i]))
  }

  function DescribeElement(descriptions: map<string, string>, n: string, e: ElementEntry): ElementEntry
  {
    e.(description := Lookup(descriptions, n), attributes := DescribeAttributes(descriptions, n, e.attributes))
  }

  /** Every record of the catalog, described. */
  function Described(descriptions: map<string, string>, elements: map<string, ElementEntry>): map<string, ElementEntry>
  {
    map n | n in elements :: DescribeElement(descriptions, n, elements[n])
  }

  // ---------------------------------------------------------------------
  // the loops

  method DescribeChoiceList(descriptions: map<string, string>, n: string, a: string, cs: seq<ChoiceEntry>)
    returns (r: seq<ChoiceEntry>, any: bool)
    ensures r == DescribeChoices(descriptions, n, a, cs)
    ensures any == AnyDescribed(r)
  {
    r := [];
    any := false;
    for i := 0 to |cs|
      invariant |r| == i
      invariant forall j :: 0 <= j < i ==> r[j] == DescribeChoice(descriptions, n, a, cs[j])
      invariant any <==> exists j :: 0 <= j < i && Truthy(r[j].description)
    {
      var c := cs[i].value;
      var ddd := cs[i].(description := Lookup(descriptions, ChoiceKey(n, a, c)));
      r := r + [ddd];
      any := any || Truthy(ddd.description);
    }
  }

  method DescribeAttributeList(descriptions: map<string, string>, n: string, attrs: seq<AttributeEntry>)
    returns (r: seq<AttributeEntry>)
    ensures r == DescribeAttributes(descriptions, n, attrs)
  {
    r := [];
    for i := 0 to |attrs|
      invariant |r| == i
      invariant forall j :: 0 <= j < i ==> r[j] == DescribeAttribute(descriptions, n, attrs[j])
    {
      var a := attrs[i].name;
      var cs, any := DescribeChoiceList(descriptions, n, a, attrs[i].choices);
      r := r + [attrs[i].(description := Lookup(descriptions, AttributeKey(n, a)), choices := cs, choiceDescriptions := any)];
    }
  }

  /** The loop over the catalog: every record, in whatever order the map
      yields them, gets its descriptions. */
  method AttachDescriptions(elements: map<string, ElementEntry>, descriptions: map<string, string>)
    returns (r: map<string, ElementEntry>)
    ensures r == Described(descriptions, elements)
  {
    r := elements;
    var todo := elements.Keys;
    while todo != {}
      invariant todo <= elements.Keys && r.Keys == elements.Keys
      invariant forall n :: n in r ==> r[n] == if n in todo then elements[n] else DescribeElement(descriptions, n, elements[n])
      decreases todo
    {
      var n :| n in todo;
      var d := elements[n];
      var attrs := DescribeAttributeList(descriptions, n, d.attributes);
      r := r[n := d.(description := Lookup(descriptions, n), attributes := attrs)];
      todo := todo - {n};
    }
    assert forall n :: n in r ==> r[n] == Described(descriptions, elements)[n];
  }

  // ---------------------------------------------------------------------
  // what the pass guarantees

  /** A record with every description cleared. */
  function Undescribed(e: ElementEntry): ElementEntry
  {
    e.(description := None,
       attributes := seq(|e.attributes|, i requires 0 <= i < |e.attributes| =>
         e.attributes[i].(description := None, choiceDescriptions := false,
           choices := seq(|e.attributes[i].choices|, j requires 0 <= j < |e.attributes[i].choices| =>
             e.attributes[i].choices[j].(description := None)))))
  }

  /** The pass changes descriptions only: the same names, and records that
      agree once the descriptions are cleared. */
  lemma DescribedChangesDescriptionsOnly(descriptions: map<string, string>, elements: map<string, ElementEntry>)
    ensures Described(descriptions, elements).Keys == elements.Keys
    ensures forall n :: n in elements ==> Undescribed(Described(descriptions, elements)[n]) == Undescribed(elements[n])
  {
    var r := Described(descriptions, elements);
    forall n | n in elements ensures Undescribed(r[n]) == Undescribed(elements[n]) {
      var e := elements[n];
      var u, v := Undescribed(r[n]), Undescribed(e);
      assert |u.attributes| == |v.attributes|;
      forall i | 0 <= i < |u.attributes| ensures u.attributes[i] == v.attributes[i] {
        var a := e.attributes[i];
        assert |u.attributes[i].choices| == |v.attributes[i].choices|;
        assert forall j :: 0 <= j < |a.choices| ==> u.attributes[i].choices[j] == v.attributes[i].choices[j];
      }
    }
  }

  /** Each description comes from its own key: `n` for the element,
      `n[a]` for its attribute a, `n[a="v"]` for the value v of a; and an
      attribute is flagged exactly when one of its values has a non-empty
      description. */
  lemma DescribedKeys(descriptions: map<string, string>, elements: map<string, ElementEntry>, n: string)
    requires n in elements
    ensures var e := Described(descriptions, elements)[n];
            var attrs := elements[n].attributes;
            e.description == Lookup(descriptions, n) &&
            forall i :: 0 <= i < |attrs| ==>
              e.attributes[i].description == Lookup(descriptions, n + "[" + attrs[i].name + "]") &&
              forall j :: 0 <= j < |attrs[i].choices| ==>
                e.attributes[i].choices[j].description
                  == Lookup(descriptions, n + "[" + attrs[i].name + "=\"" + Show(attrs[i].choices[j].value) + "\"]")
  {
  }

  lemma DescribedFlag(descriptions: map<string, string>, elements: map<string, ElementEntry>, n: string, i: nat)
    requires n in elements && i < |elements[n].attributes|
    ensures var a := Described(descriptions, elements)[n].attributes[i];
            var cs := elements[n].attributes[i].choices;
            a.choiceDescriptions <==>
              exists j :: 0 <= j < |cs| && Truthy(Lookup(descriptions, ChoiceKey(n, elements[n].attributes[i].name, cs[j].value)))
  {
    var a := Described(descriptions, elements)[n].attributes[i];
    var an := elements[n].attributes[i].name;
    var cs := elements[n].attributes[i].choices;
    assert a.choices == DescribeChoices(descriptions, n, an, cs);
    assert a.choiceDescriptions == AnyDescribed(a.choices);
    assert forall k :: 0 <= k < |cs| ==> a.choices[k].description == Lookup(descriptions, ChoiceKey(n, an, cs[k].value));
  }

  /** Describing twice gives what describing once gives. */
  lemma DescribedIdempotent(descriptions: map<string, string>, elements: map<string, ElementEntry>)
    ensures Described(descriptions, Described(descriptions, elements)) == Described(descriptions, elements)
  {
    var r := Described(descriptions, elements);
    forall n | n in r ensures Described(descriptions, r)[n] == r[n] {
      DescribeElementIdempotent(descriptions, n, elements[n]);
    }
  }

  lemma DescribeElementIdempotent(descriptions: map<string, string>, n: string, e: ElementEntry)
    ensures DescribeElement(descriptions, n, DescribeElement(descriptions, n, e)) == DescribeElement(descriptions, n, e)
  {
    var once := DescribeAttributes(descriptions, n, e.attributes);
    var twice := DescribeAttributes(descriptions, n, once);
    forall i | 0 <= i < |once| ensures twice[i] == once[i] {
      DescribeAttributeIdempotent(descriptions, n, e.attributes[i]);
    }
  }

  lemma DescribeAttributeIdempotent(descriptions: map<string, string>, n: string, at: AttributeEntry)
    ensures DescribeAttribute(descriptions, n, DescribeAttribute(descriptions, n, at)) == DescribeAttribute(descriptions, n, at)
  {
    var once := DescribeAttribute(descriptions, n, at);
    assert once.name == at.name;
    assert forall j :: 0 <= j < |once.choices| ==>
             DescribeChoices(descriptions, n, at.name, once.choices)[j] == once.choices[j];
  }

  // ---------------------------------------------------------------------
  // capfirst

  /** `c.upper()` for an ASCII character. */
  function Upper(c: char): (u: char)
    ensures 'a' <= c <= 'z' ==> u as int == c as int - 32
    ensures !('a' <= c <= 'z') ==> u == c
  {
    if 'a' <= c <= 'z' then (c as int - 32) as char else c
  }

  /** `value and value[0].upper() + value[1:]`: None and "" are returned
      as they are; otherwise only the first character changes, to its
      upper case. */
  function CapFirst(value: Option<string>): (r: Option<string>)
    ensures value.None? ==> r.None?
    ensures value == Some("") ==> r == value
    ensures value.Some? && value.value != "" ==>
              r.Some? && |r.value| == |value.value| && r.value[0] == Upper(value.value[0]) && r.value[1..] == value.value[1..]
  {
    match value
    case None => None
    case Some(s) => if s == "" then value else Some([Upper(s[0])] + s[1..])
  }

  /** Capitalising twice gives what capitalising once gives. */
  lemma CapFirstIdempotent(value: Option<string>)
    ensures CapFirst(CapFirst(value)) == CapFirst(value)
  {
    if value.Some? && value.value != "" {
      var s := CapFirst(value).value;
      assert [Upper(s[0])] + s[1..] == s;
    }
  }
}
