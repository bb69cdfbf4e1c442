/** The patch scheme: reserved namespaces and attribute names, the attribute lookups
    on a patch element, the default match expression and the resolution of a patch
    element's action (XmlPatch.cs). */
module Scheme {
  import opened Util
  import opened PatchDocuments
  import opened Errors
  import NA = NodeActions

  /** The main scheme namespace; attributes in it are directives, never data. */
  const SchemeNamespace: string := "http://schemas.xmlpatch"
  /** Names and attributes under this namespace are matched by local name only. */
  const BaseModSchemeNamespace: string := SchemeNamespace + "/mod"
  /** An attribute in exactly this namespace is the key of the default match expression. */
  const PrimaryAttributeSchemeNamespace: string := BaseModSchemeNamespace + "/attr/key"
  /** A patch element whose namespace starts with this carries its action after it. */
  const NodeActionSchemeNamespace: string := BaseModSchemeNamespace + "/node"
  const NodeActionAttributeName: string := "action"
  const FindNodeAttributeName: string := "find"
  const CreateNodeAttributeName: string := "create"
  const CreateNodeAttributeCraftSeparator: char := '>'

  /** Index of the first attribute satisfying `f`. */
  function FirstWhere(attrs: seq<PAttr>, f: PAttr -> bool): (r: Option<nat>)
    ensures r.None? <==> forall i :: 0 <= i < |attrs| ==> !f(attrs[i])
    ensures r.Some? ==> r.value < |attrs| && f(attrs[r.value])
    ensures r.Some? ==> forall j :: 0 <= j < r.value ==> !f(attrs[j])
  {
    if attrs == [] then None
    else if f(attrs[0]) then Some(0)
    else match FirstWhere(attrs[1..], f)
      case None => None
      case Some(i) => Some(i + 1)
  }

  predicate HasName(a: PAttr, localName: string, namespaceUri: string)
  {
    a.name.local == localName && a.name.ns == namespaceUri
  }

  /** TryGetAttributeValue: the value of the first attribute with this local name and
      namespace; nothing for a node without attributes. */
  function TryGetAttributeValue(n: PNode, localName: string, namespaceUri: string): (r: Option<string>)
    ensures r.None? <==>
      n.PCharData? || forall i :: 0 <= i < |n.attrs| ==> !HasName(n.attrs[i], localName, namespaceUri)
    ensures r.Some? ==>
      exists i :: 0 <= i < |n.attrs| && HasName(n.attrs[i], localName, namespaceUri) &&
        n.attrs[i].value == r.value && forall j :: 0 <= j < i ==> !HasName(n.attrs[j], localName, namespaceUri)
  {
    if n.PCharData? then None
    else match FirstWhere(n.attrs, (a: PAttr) => HasName(a, localName, namespaceUri))
      case None => None
      case Some(i) => Some(n.attrs[i].value)
  }

  /** TryGetModAttribute: the first attribute whose namespace is exactly `namespaceUri`. */
  function TryGetModAttribute(n: PNode, namespaceUri: string): (r: Option<PAttr>)
    ensures r.None? <==>
      n.PCharData? || forall i :: 0 <= i < |n.attrs| ==> n.attrs[i].name.ns != namespaceUri
    ensures r.Some? ==>
      exists i :: 0 <= i < |n.attrs| && n.attrs[i] == r.value &&
        r.value.name.ns == namespaceUri && forall j :: 0 <= j < i ==> n.attrs[j].name.ns != namespaceUri
  {
    if n.PCharData? then None
    else match FirstWhere(n.attrs, (a: PAttr) => a.name.ns == namespaceUri)
      case None => None
      case Some(i) => Some(n.attrs[i])
  }

  /** The element's name as the match expression spells it: the local name under the
      mod namespace, else the qualified name. */
  function BaseName(n: PNode): string
    requires n.PElement?
  {
    if BaseModSchemeNamespace <= n.name.ns then n.name.local else QualifiedName(n.name)
  }

  /** The XPath predicate `[@k = 'v']`. */
  function KeyPredicate(k: string, v: string): string
  {
    "[@" + k + " = '" + v + "']"
  }

  /** GetNodeXName: the base name, followed, when asked for and present, by the
      predicate on the first key attribute. */
  function GetNodeXName(n: PNode, withPrimaryAttribute: bool): string
    requires n.PElement?
  {
    var primary := TryGetModAttribute(n, PrimaryAttributeSchemeNamespace);
    if withPrimaryAttribute && primary.Some? then
      BaseName(n) + KeyPredicate(primary.value.name.local, primary.value.value)
    else BaseName(n)
  }

  /** The expression that finds a patch element's candidates: the `find` directive
      when present; otherwise the base name alone when no attribute is in the key
      namespace, and the base name with `[@k = 'v']` for the first key attribute when
      one is. */
  function MatchExpression(n: PNode): (r: string)
    requires n.PElement?
    ensures TryGetAttributeValue(n, FindNodeAttributeName, SchemeNamespace).Some? ==>
      r == TryGetAttributeValue(n, FindNodeAttributeName, SchemeNamespace).value
    ensures TryGetAttributeValue(n, FindNodeAttributeName, SchemeNamespace).None? ==>
      (forall i :: 0 <= i < |n.attrs| ==> n.attrs[i].name.ns != PrimaryAttributeSchemeNamespace) ==>
      r == BaseName(n)
    ensures TryGetAttributeValue(n, FindNodeAttributeName, SchemeNamespace).None? ==>
      forall i :: IsFirstKey(n, i) ==> r == BaseName(n) + KeyPredicate(n.attrs[i].name.local, n.attrs[i].value)
  {
    FirstKeyIsModAttribute(n);
    match TryGetAttributeValue(n, FindNodeAttributeName, SchemeNamespace)
    case Some(x) => x
    case None => GetNodeXName(n, true)
  }

  /** The action directive: the `action` attribute in the scheme namespace, else the
      rest of a node-action namespace (every occurrence of the prefix deleted, then
      leading slashes trimmed), else none. */
  function ActionValue(n: PNode): Option<string>
    requires n.PElement?
  {
    match TryGetAttributeValue(n, NodeActionAttributeName, SchemeNamespace)
    case Some(v) => Some(v)
    case None =>
      if NodeActionSchemeNamespace <= n.name.ns then
        Some(TrimStart(ReplaceAll(n.name.ns, NodeActionSchemeNamespace), '/'))
      else None
  }

  /** The action of a patch element: Merge without a directive; otherwise the member
      whose name the directive equals ignoring case, and an error when there is none. */
  function ResolveAction(n: PNode): (r: Result<NA.NodeAction>)
    requires n.PElement?
    ensures ActionValue(n).None? ==> r == Ok(NA.Merge)
    ensures ActionValue(n).Some? ==>
      forall a :: r == Ok(a) <==> EqualsIgnoreCase(ActionValue(n).value, NA.Name(a))
    ensures r.Err? <==> ActionValue(n).Some? && NA.Parse(ActionValue(n).value).None?
    ensures r.Err? ==> r.error == InvalidAction(ActionValue(n).value)
  {
    match ActionValue(n)
    case None => Ok(NA.Merge)
    case Some(v) =>
      match NA.Parse(v)
      case Some(a) => Ok(a)
      case None => Err(InvalidAction(v))
  }

  /** An `action` attribute in the scheme namespace decides, whatever the namespace. */
  lemma ExplicitActionWins(n: PNode, v: string, a: NA.NodeAction)
    requires n.PElement?
    requires TryGetAttributeValue(n, NodeActionAttributeName, SchemeNamespace) == Some(v)
    requires EqualsIgnoreCase(v, NA.Name(a))
    ensures ResolveAction(n) == Ok(a)
  {
  }

  /** Without an `action` attribute, the namespace `…/mod/node/<name>` selects the
      member `<name>`, in any letter case. */
  lemma ActionFromNamespace(n: PNode, v: string, a: NA.NodeAction)
    requires n.PElement?
    requires TryGetAttributeValue(n, NodeActionAttributeName, SchemeNamespace).None?
    requires n.name.ns == NodeActionSchemeNamespace + "/" + v
    requires EqualsIgnoreCase(v, NA.Name(a))
    ensures ActionValue(n) == Some(v)
    ensures ResolveAction(n) == Ok(a)
  {
    DirectiveNameShape(v, a);
    var pat := NodeActionSchemeNamespace;
    assert |pat| == 32;
    assert n.name.ns == pat + ("/" + v);
    assert pat <= n.name.ns;
    TrimmedRemainder(pat, v);
    assert ActionValue(n) == Some(v);
  }

  /** A value equal to a member name ignoring case is short and starts with a letter. */
  lemma DirectiveNameShape(v: string, a: NA.NodeAction)
    requires EqualsIgnoreCase(v, NA.Name(a))
    ensures 0 < |v| <= 9 && v[0] != '/'
  {
    assert LowerChar(v[0]) == LowerChar(NA.Name(a)[0]);
  }

  /** No `action` attribute and a namespace outside `…/mod/node` means Merge. */
  lemma NoDirectiveMeansMerge(n: PNode)
    requires n.PElement?
    requires TryGetAttributeValue(n, NodeActionAttributeName, SchemeNamespace).None?
    requires !(NodeActionSchemeNamespace <= n.name.ns)
    ensures ResolveAction(n) == Ok(NA.Merge)
  {
  }

  /** A directive that names no member, in any case, is an error. */
  lemma UnknownActionFails(n: PNode, v: string)
    requires n.PElement? && ActionValue(n) == Some(v)
    requires forall a :: !EqualsIgnoreCase(v, NA.Name(a))
    ensures ResolveAction(n) == Err(InvalidAction(v))
  {
  }

  /** Attribute `i` is the first one in the key namespace. */
  predicate IsFirstKey(n: PNode, i: int)
    requires n.PElement?
  {
    && 0 <= i < |n.attrs|
    && n.attrs[i].name.ns == PrimaryAttributeSchemeNamespace
    && forall j :: 0 <= j < i ==> n.attrs[j].name.ns != PrimaryAttributeSchemeNamespace
  }

  /** The first attribute in the key namespace is the one TryGetModAttribute finds. */
  lemma FirstKeyIsModAttribute(n: PNode)
    requires n.PElement?
    ensures forall i :: IsFirstKey(n, i) ==> TryGetModAttribute(n, PrimaryAttributeSchemeNamespace) == Some(n.attrs[i])
  {
    forall i | IsFirstKey(n, i)
      ensures TryGetModAttribute(n, PrimaryAttributeSchemeNamespace) == Some(n.attrs[i])
    {
      var r := TryGetModAttribute(n, PrimaryAttributeSchemeNamespace);
      var k :| 0 <= k < |n.attrs| && n.attrs[k] == r.value &&
        r.value.name.ns == PrimaryAttributeSchemeNamespace &&
        forall j :: 0 <= j < k ==> n.attrs[j].name.ns != PrimaryAttributeSchemeNamespace;
      assert !(k < i) && !(i < k);
    }
  }
}
