/** XPath evaluation (XmlNode.SelectNodes / SelectSingleNode) as an oracle, and the
    concrete selector that the engine's default match expressions denote: the child
    elements with a given name and, optionally, a given attribute value. */
module Selectors {
  import opened Util
  import opened SourceTrees
  import opened PatchDocuments
  import opened Scheme

  /** Evaluates an expression with a context node. XPath returns its node set in
      document order; the engine relies only on `SelectorOk`. */
  type Selector = (Doc, NodeId, string) -> seq<NodeId>

  /** Every result exists and is an element or the context node itself. */
  ghost predicate ResultsOk(d: Doc, n: NodeId, rs: seq<NodeId>)
  {
    forall m :: m in rs ==> m in d.nodes && (IsElement(d, m) || m == n)
  }

  /** What the engine assumes of XPath evaluation. */
  ghost predicate SelectorOk(select: Selector)
  {
    forall d, n, x :: Valid(d) && IsContainer(d, n) ==> ResultsOk(d, n, select(d, n, x))
  }

  /** SelectSingleNode: the first result, if any. */
  function SelectSingle(select: Selector, d: Doc, n: NodeId, x: string): (r: Option<NodeId>)
    ensures r.None? <==> select(d, n, x) == []
    ensures r.Some? ==> r.value == select(d, n, x)[0]
  {
    var rs := select(d, n, x);
    if rs == [] then None else Some(rs[0])
  }

  /** A location step `name` or `name[@key = 'value']`. */
  datatype NameTest = NameTest(name: string, key: Option<(string, string)>)

  /** The element carries that name and, when a key is given, that attribute value. */
  predicate Passes(s: SrcNode, t: NameTest)
  {
    && s.kind.ElementNode?
    && s.kind.name == t.name
    && (t.key.Some? ==> t.key.value.0 in s.attrs && s.attrs[t.key.value.0] == t.key.value.1)
  }

  /** The nodes of `cs` that exist and pass the test, in their order. */
  function ChildFilter(d: Doc, cs: seq<NodeId>, t: NameTest): (r: seq<NodeId>)
    ensures forall c :: c in r <==> c in cs && c in d.nodes && Passes(d.nodes[c], t)
  {
    if cs == [] then []
    else
      var rest := ChildFilter(d, cs[1..], t);
      if cs[0] in d.nodes && Passes(d.nodes[cs[0]], t) then [cs[0]] + rest else rest
  }

  /** Reads the predicate part `@key = 'value']` of a step. */
  function ParseKey(rest: string): Option<(string, string)>
  {
    if |rest| >= 1 && rest[0] == '@' then
      match SplitFirst(rest[1..], ' ')
      case None => None
      case Some((k, t)) =>
        if |t| >= 5 && t[..3] == "= '" && t[|t| - 2..] == "']" then Some((k, t[3..|t| - 2])) else None
    else None
  }

  /** Reads a step; anything else is not understood. */
  function ParseStep(x: string): Option<NameTest>
  {
    match SplitFirst(x, '[')
    case None => Some(NameTest(x, None))
    case Some((name, rest)) =>
      match ParseKey(rest)
      case None => None
      case Some(kv) => Some(NameTest(name, Some(kv)))
  }

  /** The concrete selector: `.` is the context node; a step selects the matching
      element children; an expression it does not understand selects nothing. */
  function ChildElementSelector(d: Doc, n: NodeId, x: string): seq<NodeId>
  {
    if x == "." then [n]
    else if n !in d.nodes then []
    else match ParseStep(x)
      case None => []
      case Some(t) => ChildFilter(d, d.nodes[n].children, t)
  }

  /** The concrete selector meets what the engine assumes. */
  lemma ChildElementSelectorOk()
    ensures SelectorOk(ChildElementSelector)
  {
  }

  /** The key predicate parses back to its key and value when the key has no space. */
  lemma ParseKeyPredicate(k: string, v: string)
    requires ' ' !in k
    ensures ParseKey("@" + k + " = '" + v + "']") == Some((k, v))
  {
    var rest := "@" + k + " = '" + v + "']";
    var t := "= '" + v + "']";
    assert rest[1..] == k + [' '] + t;
    SplitFirstJoin(k, t, ' ');
    assert t[..3] == "= '" && t[|t| - 2..] == "']" && t[3..|t| - 2] == v;
  }

  /** The default match expression of a patch element selects exactly its name-sake
      children (with the key attribute's value, when it has one), in document order,
      for names without `[` and key names without spaces, as XML names are. */
  lemma DefaultMatchSelects(p: PNode, d: Doc, n: NodeId)
    requires p.PElement? && n in d.nodes
    requires '[' !in BaseName(p) && BaseName(p) != "."
    requires TryGetModAttribute(p, PrimaryAttributeSchemeNamespace).Some? ==>
      ' ' !in TryGetModAttribute(p, PrimaryAttributeSchemeNamespace).value.name.local
    ensures TryGetModAttribute(p, PrimaryAttributeSchemeNamespace).None? ==>
      ChildElementSelector(d, n, GetNodeXName(p, true)) ==
      ChildFilter(d, d.nodes[n].children, NameTest(BaseName(p), None))
    ensures TryGetModAttribute(p, PrimaryAttributeSchemeNamespace).Some? ==>
      var key := TryGetModAttribute(p, PrimaryAttributeSchemeNamespace).value;
      ChildElementSelector(d, n, GetNodeXName(p, true)) ==
      ChildFilter(d, d.nodes[n].children, NameTest(BaseName(p), Some((key.name.local, key.value))))
  {
    var primary := TryGetModAttribute(p, PrimaryAttributeSchemeNamespace);
    var x := GetNodeXName(p, true);
    if primary.Some? {
      var k, v := primary.value.name.local, primary.value.value;
      var rest := "@" + k + " = '" + v + "']";
      assert x == BaseName(p) + ['['] + rest;
      SplitFirstJoin(BaseName(p), rest, '[');
      ParseKeyPredicate(k, v);
      assert x != "." by { assert |x| > 1; }
    }
  }
}
