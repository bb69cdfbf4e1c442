/** MergeNodes (XmlPatch.cs): copying a patch element's attributes onto a source
    element, and carrying over its text when that is its only child. */
module Merging {
  import opened Util
  import opened SourceTrees
  import opened PatchDocuments
  import opened Scheme
  import XT = XmlTrees

  /** Directive attributes and declarations of the scheme namespace are never copied. */
  predicate IsReserved(a: PAttr)
  {
    a.name.ns == SchemeNamespace || (a.name.prefix == "xmlns" && SchemeNamespace <= a.value)
  }

  /** The source attribute a patch attribute lands on: the bare local name for a
      mod-namespace attribute, the qualified name otherwise. */
  function TargetKey(a: PAttr): string
  {
    if BaseModSchemeNamespace <= a.name.ns then a.name.local else QualifiedName(a.name)
  }

  /** One turn of the attribute loop. */
  function ApplyAttr(m: map<string, string>, a: PAttr): map<string, string>
  {
    if IsReserved(a) then m else m[TargetKey(a) := a.value]
  }

  /** The attribute map after the loop has gone over `ps` from the first attribute. */
  function MergedAttrs(m: map<string, string>, ps: seq<PAttr>): map<string, string>
  {
    if ps == [] then m else ApplyAttr(MergedAttrs(m, ps[..|ps| - 1]), ps[|ps| - 1])
  }

  /** What the patch attributes write, whatever the source node held. */
  function Overlay(ps: seq<PAttr>): map<string, string>
  {
    MergedAttrs(map[], ps)
  }

  /** The loop overrides the source map with the patch's overlay. */
  lemma {:induction false} MergedIsOverlay(m: map<string, string>, ps: seq<PAttr>)
    ensures MergedAttrs(m, ps) == m + Overlay(ps)
  {
    if ps != [] {
      var init, a := ps[..|ps| - 1], ps[|ps| - 1];
      MergedIsOverlay(m, init);
      MergedIsOverlay(map[], init);
      if !IsReserved(a) {
        assert (m + Overlay(init))[TargetKey(a) := a.value] == m + Overlay(init)[TargetKey(a) := a.value];
      }
    }
  }

  /** The overlay writes exactly the target keys of the non-reserved attributes. */
  lemma {:induction false} OverlayKeys(ps: seq<PAttr>, k: string)
    ensures k in Overlay(ps) <==> exists i :: 0 <= i < |ps| && !IsReserved(ps[i]) && TargetKey(ps[i]) == k
  {
    if ps != [] {
      var init := ps[..|ps| - 1];
      OverlayKeys(init, k);
      if exists i :: 0 <= i < |init| && !IsReserved(init[i]) && TargetKey(init[i]) == k {
        var i :| 0 <= i < |init| && !IsReserved(init[i]) && TargetKey(init[i]) == k;
        assert ps[i] == init[i];
      }
      if exists i :: 0 <= i < |ps| && !IsReserved(ps[i]) && TargetKey(ps[i]) == k {
        var i :| 0 <= i < |ps| && !IsReserved(ps[i]) && TargetKey(ps[i]) == k;
        if i < |init| { assert init[i] == ps[i]; }
      }
    }
  }

  /** A key ends with the value of the last non-reserved attribute that targets it. */
  lemma {:induction false} LastWriteWins(m: map<string, string>, ps: seq<PAttr>, i: nat)
    requires i < |ps| && !IsReserved(ps[i])
    requires forall j :: i < j < |ps| && !IsReserved(ps[j]) ==> TargetKey(ps[j]) != TargetKey(ps[i])
    ensures TargetKey(ps[i]) in MergedAttrs(m, ps)
    ensures MergedAttrs(m, ps)[TargetKey(ps[i])] == ps[i].value
  {
    var init := ps[..|ps| - 1];
    if i < |ps| - 1 {
      assert init[i] == ps[i];
      forall j | i < j < |init| && !IsReserved(init[j]) ensures TargetKey(init[j]) != TargetKey(init[i]) {
        assert init[j] == ps[j];
      }
      LastWriteWins(m, init, i);
    }
  }

  /** A source attribute that no patch attribute targets keeps its value, and no key
      appears that neither the source nor a non-reserved patch attribute has. */
  lemma UntouchedAttributes(m: map<string, string>, ps: seq<PAttr>, k: string)
    ensures (forall i :: 0 <= i < |ps| && !IsReserved(ps[i]) ==> TargetKey(ps[i]) != k) ==>
      (k in MergedAttrs(m, ps) <==> k in m) && (k in m ==> MergedAttrs(m, ps)[k] == m[k])
  {
    MergedIsOverlay(m, ps);
    OverlayKeys(ps, k);
  }

  /** Merging the same attributes twice gives what merging them once gives. */
  lemma MergeAttrsIdempotent(m: map<string, string>, ps: seq<PAttr>)
    ensures MergedAttrs(MergedAttrs(m, ps), ps) == MergedAttrs(m, ps)
  {
    MergedIsOverlay(m, ps);
    MergedIsOverlay(m + Overlay(ps), ps);
    assert m + Overlay(ps) + Overlay(ps) == m + Overlay(ps);
  }

  /** The patch element's only child is character data (XmlPatch.cs:345): its InnerXml
      then replaces the source node's content. */
  predicate HasSingleContent(p: PNode)
  {
    p.PElement? && |p.children| == 1 && p.children[0].PCharData?
  }

  /** The document after MergeNodes(target, p). For an element `XmlNode.Value` is null,
      so the value assignment of XmlPatch.cs:342 never fires and is absent here. */
  function MergeSpec(d: Doc, target: NodeId, p: PNode): (r: Doc)
    requires Valid(d) && IsElement(d, target) && p.PElement?
    ensures Valid(r) && Grows(d, r)
  {
    var d1 := WithAttrs(d, target, MergedAttrs(d.nodes[target].attrs, p.attrs));
    if HasSingleContent(p) then ReplaceContent(d1, target, p.children[0].content) else d1
  }

  /** What a merge does to the target: its attributes are the source ones overridden
      by the overlay, its content is the patch's single character data when there is
      one (a new node, the only one added) and unchanged otherwise, its name and
      parent stay; its former children only lose their parent, and only when the
      content is replaced; every other node is unchanged. */
  lemma MergeEffect(d: Doc, target: NodeId, p: PNode)
    requires Valid(d) && IsElement(d, target) && p.PElement?
    ensures var r := MergeSpec(d, target, p);
      && r.nodes[target].attrs == d.nodes[target].attrs + Overlay(p.attrs)
      && r.nodes[target].kind == d.nodes[target].kind
      && r.nodes[target].parent == d.nodes[target].parent
      && (HasSingleContent(p) ==>
            && r.nodes[target].children == [d.next]
            && d.next !in d.nodes
            && r.nodes[d.next] == SrcNode(CharDataNode(p.children[0].content), map[], [], Some(target)))
      && (!HasSingleContent(p) ==> r.nodes[target].children == d.nodes[target].children && r.nodes.Keys == d.nodes.Keys)
      && (HasSingleContent(p) ==> r.nodes.Keys == d.nodes.Keys + {d.next})
      && (forall m :: m in d.nodes && m in d.nodes[target].children ==>
            r.nodes[m] == if HasSingleContent(p) then d.nodes[m].(parent := None) else d.nodes[m])
      && (forall m :: m in d.nodes && m != target && m !in d.nodes[target].children ==> r.nodes[m] == d.nodes[m])
  {
    assert NodeOk(d, target);
    MergedIsOverlay(d.nodes[target].attrs, p.attrs);
  }

  /** The only child of `n` is character data with this content. */
  predicate ContentIs(d: Doc, n: NodeId, content: string)
  {
    && n in d.nodes
    && |d.nodes[n].children| == 1
    && d.nodes[n].children[0] in d.nodes
    && d.nodes[d.nodes[n].children[0]].kind == CharDataNode(content)
  }

  /** Merging twice leaves the target with the same attributes and the same content
      as merging once. */
  lemma MergeIdempotent(d: Doc, target: NodeId, p: PNode)
    requires Valid(d) && IsElement(d, target) && p.PElement?
    ensures var once := MergeSpec(d, target, p);
      var twice := MergeSpec(once, target, p);
      && twice.nodes[target].attrs == once.nodes[target].attrs
      && (HasSingleContent(p) ==>
            ContentIs(once, target, p.children[0].content) && ContentIs(twice, target, p.children[0].content))
      && (!HasSingleContent(p) ==> twice.nodes[target].children == once.nodes[target].children)
  {
    var once := MergeSpec(d, target, p);
    MergeEffect(d, target, p);
    MergeEffect(once, target, p);
    MergeAttrsIdempotent(d.nodes[target].attrs, p.attrs);
    MergedIsOverlay(d.nodes[target].attrs, p.attrs);
    MergedIsOverlay(once.nodes[target].attrs, p.attrs);
  }

  /** A patch element that carries only directives and no single text leaves the
      target exactly as it was. */
  lemma MergeDirectivesOnlyIsIdentity(d: Doc, target: NodeId, p: PNode)
    requires Valid(d) && IsElement(d, target) && p.PElement?
    requires forall i :: 0 <= i < |p.attrs| ==> IsReserved(p.attrs[i])
    requires !HasSingleContent(p)
    ensures MergeSpec(d, target, p) == d
  {
    var m := d.nodes[target].attrs;
    MergedIsOverlay(m, p.attrs);
    forall k | k in Overlay(p.attrs) ensures false {
      OverlayKeys(p.attrs, k);
    }
    assert Overlay(p.attrs) == map[];
    assert m + map[] == m;
    assert d.nodes[target].(attrs := m) == d.nodes[target];
    assert d.nodes[target := d.nodes[target]] == d.nodes;
  }

  /** MergeNodes: the attribute loop, then the content rule. */
  method MergeNodes(t: XT.XmlTree, target: NodeId, p: PNode)
    requires t.Valid() && IsElement(t.Value(), target) && p.PElement?
    modifies t
    ensures t.Valid() && t.Value() == MergeSpec(old(t.Value()), target, p)
  {
    ghost var d0 := t.Value();
    var m0 := t.nodes[target].attrs;
    var i := 0;
    while i < |p.attrs|
      invariant 0 <= i <= |p.attrs|
      invariant t.Valid() && t.Value() == WithAttrs(d0, target, MergedAttrs(m0, p.attrs[..i]))
    {
      var mergeAttr := p.attrs[i];
      assert p.attrs[..i + 1][..i] == p.attrs[..i];
      if mergeAttr.name.ns == SchemeNamespace {
      } else if mergeAttr.name.prefix == "xmlns" && SchemeNamespace <= mergeAttr.value {
      } else {
        var isModAttr := BaseModSchemeNamespace <= mergeAttr.name.ns;
        var key := if isModAttr then mergeAttr.name.local else QualifiedName(mergeAttr.name);
        t.SetAttribute(target, key, mergeAttr.value);
      }
      i := i + 1;
    }
    assert p.attrs[..i] == p.attrs;
    if |p.children| == 1 && p.children[0].PCharData? {
      t.ReplaceContent(target, p.children[0].content);
    }
  }
}
