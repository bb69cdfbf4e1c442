/** The patch document: a read-only tree of elements and character data, and its
    pre-order element listing (GetAllNodes / GetAllChildNodes, XmlPatch.cs). */
module PatchDocuments {

  /** Identity of a patch node (the object identity the dictionary keys on). */
  type PId = nat

  /** A namespace-qualified name: prefix, local name and namespace URI. */
  datatype QName = QName(prefix: string, local: string, ns: string)

  /** XmlNode.Name: `prefix:local`, or the local name when there is no prefix. */
  function QualifiedName(q: QName): string
  {
    if q.prefix == "" then q.local else q.prefix + ":" + q.local
  }

  datatype PAttr = PAttr(name: QName, value: string)

  /** An element of the patch tree, or a non-element child (text, CDATA, comment),
      kept as the markup it contributes to its parent's inner content. */
  datatype PNode =
    | PElement(id: PId, name: QName, attrs: seq<PAttr>, children: seq<PNode>)
    | PCharData(content: string)

  /** A loaded patch document: the document node's identity and its document element. */
  datatype PatchDoc = PatchDoc(id: PId, root: PNode)

  /** One listed element together with the identity of its parent node. */
  datatype Visit = Visit(parent: PId, node: PNode)

  function Flatten(ss: seq<seq<Visit>>): seq<Visit>
  {
    if ss == [] then [] else Flatten(ss[..|ss| - 1]) + ss[|ss| - 1]
  }

  /** What one child contributes: itself when it is an element, then its descendants. */
  function ChildVisits(parent: PId, c: PNode): seq<Visit>
    decreases c, 1
  {
    (if c.PElement? then [Visit(parent, c)] else []) + Descendants(c)
  }

  /** The per-child contributions of an element, in document order. */
  function ChildContributions(n: PNode): seq<seq<Visit>>
    requires n.PElement?
    decreases n, 0
  {
    seq(|n.children|, i requires 0 <= i < |n.children| => ChildVisits(n.id, n.children[i]))
  }

  /** Every descendant element of `n`, in pre-order. */
  function Descendants(n: PNode): seq<Visit>
    decreases n, 1, 0
  {
    if n.PCharData? then [] else Flatten(ChildContributions(n))
  }

  /** The document element first, then every descendant element in pre-order. */
  function AllNodes(doc: PatchDoc): seq<Visit>
  {
    [Visit(doc.id, doc.root)] + Descendants(doc.root)
  }

  /** GetAllChildNodes: recursive walk over the children, accumulating into a list. */
  method GetAllChildNodes(node: PNode) returns (list: seq<Visit>)
    ensures list == Descendants(node)
    decreases node
  {
    list := [];
    if node.PElement? {
      ghost var contributions := ChildContributions(node);
      var i := 0;
      while i < |node.children|
        invariant 0 <= i <= |node.children|
        invariant list == Flatten(contributions[..i])
      {
        var childNode := node.children[i];
        ghost var before := list;
        if childNode.PElement? {
          list := list + [Visit(node.id, childNode)];
        }
        var sub := GetAllChildNodes(childNode);
        list := list + sub;
        assert contributions[i] == ChildVisits(node.id, childNode);
        assert list == before + contributions[i];
        assert contributions[..i + 1][..i] == contributions[..i];
        i := i + 1;
      }
      assert contributions[..i] == contributions;
    }
  }

  /** GetAllNodes: the document element followed by all its descendant elements. */
  method GetAllNodes(doc: PatchDoc) returns (list: seq<Visit>)
    ensures list == AllNodes(doc)
  {
    list := [Visit(doc.id, doc.root)];
    var rest := GetAllChildNodes(doc.root);
    list := list + rest;
  }

  // ---------------------------------------------------------------------------
  // Properties of the listing

  /** `v` records an element child of `n` or of one of `n`'s descendants,
      together with that parent's identity. */
  ghost predicate ChildOf(v: Visit, n: PNode)
    decreases n
  {
    n.PElement? &&
    ((v.parent == n.id && v.node in n.children) ||
     exists i :: 0 <= i < |n.children| && ChildOf(v, n.children[i]))
  }

  /** How many times `x` is listed in `vs`. */
  function Count(vs: seq<Visit>, x: PNode): nat
  {
    if vs == [] then 0 else Count(vs[..|vs| - 1], x) + (if vs[|vs| - 1].node == x then 1 else 0)
  }

  function Sum(s: seq<nat>): nat
  {
    if s == [] then 0 else Sum(s[..|s| - 1]) + s[|s| - 1]
  }

  /** How many times the element `x` occurs strictly below `n` in the tree. */
  ghost function Occurrences(x: PNode, n: PNode): nat
    decreases n
  {
    if n.PCharData? then 0
    else Sum(seq(|n.children|, i requires 0 <= i < |n.children| =>
               (if n.children[i] == x then 1 else 0) + Occurrences(x, n.children[i])))
  }

  lemma {:induction false} FlattenIn(ss: seq<seq<Visit>>, v: Visit)
    ensures v in Flatten(ss) <==> exists i :: 0 <= i < |ss| && v in ss[i]
  {
    if ss != [] {
      var init := ss[..|ss| - 1];
      FlattenIn(init, v);
      assert forall i :: 0 <= i < |init| ==> init[i] == ss[i];
    }
  }

  lemma {:induction false} CountConcat(a: seq<Visit>, b: seq<Visit>, x: PNode)
    ensures Count(a + b, x) == Count(a, x) + Count(b, x)
  {
    if b == [] {
      assert a + b == a;
    } else {
      CountConcat(a, b[..|b| - 1], x);
      assert (a + b)[..|a + b| - 1] == a + b[..|b| - 1];
      assert (a + b)[|a + b| - 1] == b[|b| - 1];
    }
  }

  lemma {:induction false} FlattenCount(ss: seq<seq<Visit>>, x: PNode)
    ensures Count(Flatten(ss), x) == Sum(seq(|ss|, i requires 0 <= i < |ss| => Count(ss[i], x)))
  {
    var counts := seq(|ss|, i requires 0 <= i < |ss| => Count(ss[i], x));
    if ss != [] {
      var init := ss[..|ss| - 1];
      FlattenCount(init, x);
      CountConcat(Flatten(init), ss[|ss| - 1], x);
      assert counts[..|ss| - 1] == seq(|init|, i requires 0 <= i < |init| => Count(init[i], x));
    }
  }

  /** Every listed node is an element, recorded with the identity of its parent. */
  lemma {:induction false} DescendantsAreElementChildren(n: PNode, v: Visit)
    requires v in Descendants(n)
    ensures v.node.PElement? && ChildOf(v, n)
    decreases n
  {
    var cs := ChildContributions(n);
    FlattenIn(cs, v);
    var i :| 0 <= i < |cs| && v in cs[i];
    var c := n.children[i];
    assert cs[i] == ChildVisits(n.id, c);
    if v in Descendants(c) {
      DescendantsAreElementChildren(c, v);
      assert ChildOf(v, n.children[i]);
    } else {
      assert c.PElement? && v == Visit(n.id, c);
      assert v.node in n.children;
    }
  }

  /** Each element is listed exactly as often as it occurs below `n`: once per
      occurrence, and nothing that does not occur is listed. */
  lemma {:induction false} ListedOncePerOccurrence(n: PNode, x: PNode)
    requires x.PElement?
    ensures Count(Descendants(n), x) == Occurrences(x, n)
    decreases n
  {
    if n.PElement? {
      var cs := ChildContributions(n);
      FlattenCount(cs, x);
      var lhs := seq(|cs|, i requires 0 <= i < |cs| => Count(cs[i], x));
      var rhs := seq(|n.children|, i requires 0 <= i < |n.children| =>
                   (if n.children[i] == x then 1 else 0) + Occurrences(x, n.children[i]));
      forall i | 0 <= i < |cs| ensures lhs[i] == rhs[i] {
        var c := n.children[i];
        assert cs[i] == ChildVisits(n.id, c);
        ListedOncePerOccurrence(c, x);
        CountConcat(if c.PElement? then [Visit(n.id, c)] else [], Descendants(c), x);
        assert Count([Visit(n.id, c)], x) == if c == x then 1 else 0 by {
          assert [Visit(n.id, c)][..0] == [];
        }
      }
      assert lhs == rhs;
    }
  }

  /** GetAllNodes lists the document element first and then only elements, each
      element of the document exactly once per occurrence, each with its parent. */
  lemma AllNodesListing(doc: PatchDoc, x: PNode)
    requires doc.root.PElement? && x.PElement?
    ensures AllNodes(doc)[0] == Visit(doc.id, doc.root)
    ensures forall v :: v in AllNodes(doc) ==> v.node.PElement?
    ensures forall v :: v in AllNodes(doc)[1..] ==> ChildOf(v, doc.root)
    ensures Count(AllNodes(doc), x) == (if x == doc.root then 1 else 0) + Occurrences(x, doc.root)
  {
    var all := AllNodes(doc);
    assert all[1..] == Descendants(doc.root);
    forall v | v in all ensures v.node.PElement? {
      if v != all[0] {
        DescendantsAreElementChildren(doc.root, v);
      }
    }
    forall v | v in all[1..] ensures ChildOf(v, doc.root) {
      DescendantsAreElementChildren(doc.root, v);
    }
    ListedOncePerOccurrence(doc.root, x);
    CountConcat([Visit(doc.id, doc.root)], Descendants(doc.root), x);
    assert [Visit(doc.id, doc.root)][..0] == [];
  }

  /** The document of the listing test: root > settings > (node, node > text),
      settings2 > node > text. */
  function SampleDocument(): PatchDoc
  {
    var plain := (l: string) => QName("", l, "");
    var node1 := PElement(3, plain("node"), [PAttr(plain("attr"), "foo")], []);
    var node2 := PElement(4, plain("node"), [PAttr(plain("gaga"), "asd")], [PCharData("123456")]);
    var settings := PElement(2, plain("settings"), [], [node1, node2]);
    var node3 := PElement(6, plain("node"), [], [PCharData("blabla")]);
    var settings2 := PElement(5, plain("settings2"), [], [node3]);
    PatchDoc(0, PElement(1, plain("root"), [], [settings, settings2]))
  }

  /** The listing of that document has six entries: every element, text excluded. */
  lemma SampleDocumentListsSixElements()
    ensures |AllNodes(SampleDocument())| == 6
  {
    var root := SampleDocument().root;
    var settings, settings2 := root.children[0], root.children[1];
    var node1, node2, node3 := settings.children[0], settings.children[1], settings2.children[0];
    assert Descendants(node1) == [];
    assert Descendants(node2) == Flatten([ChildVisits(4, PCharData("123456"))]) == [];
    assert Descendants(node3) == [];
    assert ChildContributions(settings) == [ChildVisits(2, node1), ChildVisits(2, node2)];
    assert ChildVisits(2, node1) == [Visit(2, node1)];
    assert ChildVisits(2, node2) == [Visit(2, node2)];
    assert Flatten(ChildContributions(settings)) == Flatten([[Visit(2, node1)]]) + [Visit(2, node2)];
    assert |Descendants(settings)| == 2;
    assert ChildContributions(settings2) == [ChildVisits(5, node3)];
    assert ChildVisits(5, node3) == [Visit(5, node3)];
    assert |Descendants(settings2)| == 1;
    assert ChildContributions(root) == [ChildVisits(1, settings), ChildVisits(1, settings2)];
    assert |Descendants(root)| == 5;
  }
}
