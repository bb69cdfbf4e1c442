/** CraftSourceNode (XmlPatch.cs): creating a new source element for a patch element
    and placing it after, before or inside a reference node. */
module Crafting {
  import opened Util
  import opened SourceTrees
  import opened PatchDocuments
  import opened Scheme
  import opened Errors
  import opened Selectors
  import CM = CraftModes
  import XT = XmlTrees

  /** A new placed element, no element (the reference was not found), or an error. */
  datatype CraftOutcome =
    | Crafted(doc: Doc, node: NodeId)
    | Skipped
    | Failed(error: PatchError)

  /** The parent that receives the new element in this mode. */
  function Host(d: Doc, reference: NodeId, mode: CM.CraftMode): Option<NodeId>
    requires reference in d.nodes
  {
    if mode == CM.Append then Some(reference) else d.nodes[reference].parent
  }

  /** Puts a new element named `name` after, before or as the last child of `reference`. */
  function Place(d: Doc, name: string, reference: NodeId, mode: CM.CraftMode): (r: CraftOutcome)
    requires Valid(d) && IsContainer(d, reference)
    ensures !r.Skipped?
    ensures r.Crafted? ==> Valid(r.doc) && Grows(d, r.doc) && r.node == d.next && d.next !in d.nodes && IsElement(r.doc, r.node)
  {
    if d.nodes[reference].kind.DocumentNode? then Failed(NoOwnerDocument(reference))
    else if mode != CM.Append && d.nodes[reference].parent.None? then Failed(NoParentToPosition(reference))
    else
      var host := Host(d, reference, mode).value;
      assert NodeOk(d, reference);
      if RefusesElementChild(d, host) then Failed(DocumentElementExists(host))
      else
        var d1 := CreateElement(d, name);
        var c := d.next;
        var d2 :=
          match mode
          case After => InsertAfter(d1, c, reference)
          case Before => InsertBefore(d1, c, reference)
          case Append => AppendChild(d1, reference, c);
        GrowsTransitive(d, d1, d2);
        Crafted(d2, c)
  }

  /** Where the new element lands: the reference's parent gets it at the reference's
      index plus one (After) or at that index (Before); the reference gets it as its
      last child (Append). A document node as the reference fails in every mode, as
      it has no owner document to create the element; After and Before need a parent,
      and may not add a second element to a document node. The new element has the
      name, no attributes and no children; every other node but the receiving parent
      is unchanged. */
  lemma PlaceEffect(d: Doc, name: string, reference: NodeId, mode: CM.CraftMode)
    requires Valid(d) && IsContainer(d, reference)
    ensures var r := Place(d, name, reference, mode);
      && (d.nodes[reference].kind.DocumentNode? ==> r == Failed(NoOwnerDocument(reference)))
      && (d.nodes[reference].kind.ElementNode? && Host(d, reference, mode).None? ==>
            r == Failed(NoParentToPosition(reference)))
      && (d.nodes[reference].kind.ElementNode? && Host(d, reference, mode).Some? ==>
           var host := Host(d, reference, mode).value;
           && host in d.nodes
           && (RefusesElementChild(d, host) ==> r == Failed(DocumentElementExists(host)))
           && (!RefusesElementChild(d, host) ==>
                && r.Crafted?
                && r.doc.nodes.Keys == d.nodes.Keys + {r.node}
                && r.doc.nodes[r.node] == SrcNode(ElementNode(name), map[], [], Some(host))
                && (forall n :: n in d.nodes && n != host ==> r.doc.nodes[n] == d.nodes[n])
                && r.doc.nodes[host] == d.nodes[host].(children := r.doc.nodes[host].children)
                && var old_ := d.nodes[host].children;
                   && (mode == CM.Append ==> r.doc.nodes[host].children == old_ + [r.node])
                   && (mode != CM.Append ==>
                        var i := IndexOf(old_, reference);
                        && (mode == CM.After ==> r.doc.nodes[host].children == old_[..i + 1] + [r.node] + old_[i + 1..])
                        && (mode == CM.Before ==> r.doc.nodes[host].children == old_[..i] + [r.node] + old_[i..]))))
  {
    if !d.nodes[reference].kind.DocumentNode? && Host(d, reference, mode).Some? {
      assert NodeOk(d, reference);
      var host := Host(d, reference, mode).value;
      if !RefusesElementChild(d, host) {
        var old_ := d.nodes[host].children;
        var d1 := CreateElement(d, name);
        assert d1.nodes[host] == d.nodes[host];
        match mode {
          case Append =>
            assert old_[..|old_|] == old_ && old_[|old_|..] == [];
          case After =>
          case Before =>
        }
      }
    }
  }

  /** Next to an element with a parent, the reference is the immediate neighbour of
      the new element: just before it for After, just after it for Before. */
  lemma PlaceNextToReference(d: Doc, name: string, reference: NodeId, mode: CM.CraftMode)
    requires Valid(d) && IsElement(d, reference) && mode != CM.Append
    requires d.nodes[reference].parent.Some?
    requires !RefusesElementChild(d, d.nodes[reference].parent.value)
    ensures var r := Place(d, name, reference, mode);
      var ch := r.doc.nodes[d.nodes[reference].parent.value].children;
      && r.Crafted?
      && (mode == CM.After ==> exists i :: 0 <= i < |ch| - 1 && ch[i] == reference && ch[i + 1] == r.node)
      && (mode == CM.Before ==> exists i :: 0 <= i < |ch| - 1 && ch[i] == r.node && ch[i + 1] == reference)
  {
    PlaceEffect(d, name, reference, mode);
    var q := d.nodes[reference].parent.value;
    assert NodeOk(d, reference);
    var old_ := d.nodes[q].children;
    var k := IndexOf(old_, reference);
    var r := Place(d, name, reference, mode);
    var ch := r.doc.nodes[q].children;
    if mode == CM.After {
      assert ch[k] == reference && ch[k + 1] == r.node;
    } else {
      assert ch[k] == r.node && ch[k + 1] == reference;
    }
  }

  /** The directive of the patch element, if any. */
  function CreateDirective(p: PNode): Option<string>
  {
    TryGetAttributeValue(p, CreateNodeAttributeName, SchemeNamespace)
  }

  /** CraftSourceNode as a function of the document: without a directive the new
      element is appended to the parent's counterpart; a directive without `>` is an
      error; otherwise it is split at the first `>`, the reference is looked up with
      the right part first — none found means no element — and only then is the left
      part parsed as the mode. */
  function CraftSpec(d: Doc, p: PNode, parentSource: NodeId, select: Selector): (r: CraftOutcome)
    requires Valid(d) && IsContainer(d, parentSource) && p.PElement? && SelectorOk(select)
    ensures r.Crafted? ==> Valid(r.doc) && Grows(d, r.doc) && r.node == d.next && d.next !in d.nodes && IsElement(r.doc, r.node)
  {
    var name := GetNodeXName(p, false);
    match CreateDirective(p)
    case None => Place(d, name, parentSource, CM.Append)
    case Some(v) => CraftByDirective(d, name, v, parentSource, select)
  }

  /** The `create` directive `v` at work. */
  function CraftByDirective(d: Doc, name: string, v: string, parentSource: NodeId, select: Selector): (r: CraftOutcome)
    requires Valid(d) && IsContainer(d, parentSource) && SelectorOk(select)
    ensures r.Crafted? ==> Valid(r.doc) && Grows(d, r.doc) && r.node == d.next && d.next !in d.nodes && IsElement(r.doc, r.node)
  {
    match SplitFirst(v, CreateNodeAttributeCraftSeparator)
    case None => Failed(MissingSeparator(v))
    case Some((modeText, xpath)) =>
      var found := select(d, parentSource, xpath);
      assert ResultsOk(d, parentSource, found);
      if found == [] then Skipped
      else
        match CM.Parse(modeText)
        case None => Failed(InvalidCraftMode(modeText))
        case Some(mode) => Place(d, name, found[0], mode)
  }

  /** Without a `create` directive the element is appended to the parent's counterpart. */
  lemma NoDirectiveAppends(d: Doc, p: PNode, parentSource: NodeId, select: Selector)
    requires Valid(d) && IsContainer(d, parentSource) && p.PElement? && SelectorOk(select)
    requires CreateDirective(p).None?
    ensures CraftSpec(d, p, parentSource, select) == Place(d, GetNodeXName(p, false), parentSource, CM.Append)
  {
  }

  /** A directive without the separator is an error. */
  lemma MissingSeparatorFails(d: Doc, p: PNode, parentSource: NodeId, select: Selector)
    requires Valid(d) && IsContainer(d, parentSource) && p.PElement? && SelectorOk(select)
    requires CreateDirective(p).Some? && '>' !in CreateDirective(p).value
    ensures CraftSpec(d, p, parentSource, select) == Failed(MissingSeparator(CreateDirective(p).value))
  {
  }

  /** A reference expression that finds nothing means no element and no change,
      whatever stands before the `>`, even a mode that names no member. */
  lemma UnresolvedReferenceSkips(d: Doc, p: PNode, parentSource: NodeId, select: Selector,
                                 modeText: string, xpath: string)
    requires Valid(d) && IsContainer(d, parentSource) && p.PElement? && SelectorOk(select)
    requires '>' !in modeText && CreateDirective(p) == Some(modeText + ">" + xpath)
    requires select(d, parentSource, xpath) == []
    ensures CraftSpec(d, p, parentSource, select) == Skipped
  {
    SplitFirstJoin(modeText, xpath, '>');
    assert modeText + ">" + xpath == modeText + ['>'] + xpath;
  }

  /** With the reference found, the mode decides: a mode that names no member is an
      error, a member's name in any letter case places the element by that mode. */
  lemma ResolvedReferencePlaces(d: Doc, p: PNode, parentSource: NodeId, select: Selector,
                                modeText: string, xpath: string)
    requires Valid(d) && IsContainer(d, parentSource) && p.PElement? && SelectorOk(select)
    requires '>' !in modeText && CreateDirective(p) == Some(modeText + ">" + xpath)
    requires select(d, parentSource, xpath) != []
    ensures var reference := select(d, parentSource, xpath)[0];
      && reference in d.nodes && IsContainer(d, reference)
      && (CM.Parse(modeText).None? ==> CraftSpec(d, p, parentSource, select) == Failed(InvalidCraftMode(modeText)))
      && (forall mode :: EqualsIgnoreCase(modeText, CM.Name(mode)) ==>
            CraftSpec(d, p, parentSource, select) == Place(d, GetNodeXName(p, false), reference, mode))
  {
    SplitFirstJoin(modeText, xpath, '>');
    assert modeText + ">" + xpath == modeText + ['>'] + xpath;
    assert ResultsOk(d, parentSource, select(d, parentSource, xpath));
  }

  /** `append>.` does what no directive does, when `.` selects the context node. */
  lemma AppendDotIsDefault(d: Doc, p: PNode, q: PNode, parentSource: NodeId, select: Selector, modeText: string)
    requires Valid(d) && IsContainer(d, parentSource) && p.PElement? && q.PElement? && SelectorOk(select)
    requires EqualsIgnoreCase(modeText, "append") && CreateDirective(p) == Some(modeText + ">.")
    requires CreateDirective(q).None? && GetNodeXName(p, false) == GetNodeXName(q, false)
    requires select(d, parentSource, ".") == [parentSource]
    ensures CraftSpec(d, p, parentSource, select) == CraftSpec(d, q, parentSource, select)
  {
    assert EqualsIgnoreCase(modeText, CM.Name(CM.Append));
    assert modeText + ">." == modeText + ">" + ".";
    CM.NoSeparatorInName(modeText, CM.Append);
    ResolvedReferencePlaces(d, p, parentSource, select, modeText, ".");
  }

  /** CraftSourceNode: the same decisions in the source's order on the mutable
      document. The checks that stop placement come before the element is created,
      so a failed craft leaves the document as it was. */
  method CraftSourceNode(t: XT.XmlTree, p: PNode, parentSource: NodeId, select: Selector) returns (r: CraftOutcome)
    requires t.Valid() && IsContainer(t.Value(), parentSource) && p.PElement? && SelectorOk(select)
    modifies t
    ensures t.Valid()
    ensures r == CraftSpec(old(t.Value()), p, parentSource, select)
    ensures r.Crafted? ==> t.Value() == r.doc
    ensures !r.Crafted? ==> t.Value() == old(t.Value())
  {
    ghost var d := t.Value();
    var reference: NodeId;
    var craftMode: CM.CraftMode;
    var craftAttrValue := TryGetAttributeValue(p, CreateNodeAttributeName, SchemeNamespace);
    if craftAttrValue.Some? {
      var v := craftAttrValue.value;
      if CreateNodeAttributeCraftSeparator !in v {
        return Failed(MissingSeparator(v));
      }
      var craftAttrArgs := SplitFirst(v, CreateNodeAttributeCraftSeparator).value;
      var craftModeStr, xpath := craftAttrArgs.0, craftAttrArgs.1;
      assert ResultsOk(d, parentSource, select(d, parentSource, xpath));
      var found := SelectSingle(select, t.Value(), parentSource, xpath);
      if found.None? {
        return Skipped;
      }
      reference := found.value;
      var parsed := CM.Parse(craftModeStr);
      if parsed.None? {
        return Failed(InvalidCraftMode(craftModeStr));
      }
      craftMode := parsed.value;
    } else {
      reference := parentSource;
      craftMode := CM.Append;
    }
    var nodeName := GetNodeXName(p, false);
    assert NodeOk(d, reference);
    if t.nodes[reference].kind.DocumentNode? {
      return Failed(NoOwnerDocument(reference));
    }
    if craftMode != CM.Append {
      if t.nodes[reference].parent.None? {
        return Failed(NoParentToPosition(reference));
      }
    }
    var host := if craftMode == CM.Append then reference else t.nodes[reference].parent.value;
    if RefusesElementChild(t.Value(), host) {
      return Failed(DocumentElementExists(host));
    }
    var node := t.CreateElement(nodeName);
    match craftMode {
      case After => t.InsertAfter(node, reference);
      case Before => t.InsertBefore(node, reference);
      case Append => t.AppendChild(reference, node);
    }
    r := Crafted(t.Value(), node);
  }
}
