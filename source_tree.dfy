/** The source document as an arena: every node has an identity, a kind, an attribute
    map, an ordered child list and a parent link. The functions here are the tree
    primitives XmlPatch.cs calls on the .NET DOM (CreateElement, AppendChild,
    InsertAfter, InsertBefore, RemoveChild, setting an attribute value, setting
    InnerXml); `XmlTree` is the mutable document object whose methods perform them. */
module SourceTrees {
  import opened Util

  type NodeId = nat

  datatype Kind =
    | DocumentNode
    | ElementNode(name: string)
    | CharDataNode(content: string)

  /** Attributes are keyed by their qualified name (XmlAttribute.Name). */
  datatype SrcNode = SrcNode(kind: Kind, attrs: map<string, string>, children: seq<NodeId>, parent: Option<NodeId>)

  /** `next` is the identity the next created node receives. */
  datatype Doc = Doc(root: NodeId, nodes: map<NodeId, SrcNode>, next: nat)

  predicate NoDup(s: seq<NodeId>)
  {
    forall i, j :: 0 <= i < j < |s| ==> s[i] != s[j]
  }

  /** Every child of `n` exists and names `n` as its parent. */
  ghost predicate ChildrenLinked(d: Doc, n: NodeId)
    requires n in d.nodes
  {
    forall c :: c in d.nodes[n].children ==> c in d.nodes && d.nodes[c].parent == Some(n)
  }

  /** A node with a parent is among that parent's children. */
  ghost predicate ParentLinked(d: Doc, n: NodeId)
    requires n in d.nodes
  {
    d.nodes[n].parent.Some? ==>
      d.nodes[n].parent.value in d.nodes && n in d.nodes[d.nodes[n].parent.value].children
  }

  /** What the document invariant demands of one node: its identity is below `next`,
      it is not its own parent, its child list and parent link agree with the other
      nodes, no child is listed twice, and character data has no children. */
  ghost predicate NodeOk(d: Doc, n: NodeId)
    requires n in d.nodes
  {
    && n < d.next
    && d.nodes[n].parent != Some(n)
    && ChildrenLinked(d, n)
    && ParentLinked(d, n)
    && NoDup(d.nodes[n].children)
    && (d.nodes[n].kind.CharDataNode? ==> d.nodes[n].children == [])
  }

  /** The document invariant: the document node is there and has no parent, and
      every node satisfies `NodeOk`. */
  ghost predicate Valid(d: Doc)
  {
    && d.root in d.nodes
    && d.nodes[d.root].kind.DocumentNode?
    && d.nodes[d.root].parent.None?
    && (forall n {:trigger NodeOk(d, n)} :: n in d.nodes ==> NodeOk(d, n))
  }

  /** `e` keeps every node of `d` with its kind, and the same document node. */
  ghost predicate Grows(d: Doc, e: Doc)
  {
    && e.root == d.root
    && (forall n :: n in d.nodes ==> n in e.nodes && e.nodes[n].kind == d.nodes[n].kind)
  }

  lemma GrowsTransitive(a: Doc, b: Doc, c: Doc)
    requires Grows(a, b) && Grows(b, c)
    ensures Grows(a, c)
  {
  }

  /** A node that element children can be put under. */
  predicate IsContainer(d: Doc, n: NodeId)
  {
    n in d.nodes && !d.nodes[n].kind.CharDataNode?
  }

  /** The node is an element. */
  predicate IsElement(d: Doc, n: NodeId)
  {
    n in d.nodes && d.nodes[n].kind.ElementNode?
  }

  /** XmlDocument refuses a second document element: `n` is the document node
      and already has an element child. */
  predicate RefusesElementChild(d: Doc, n: NodeId)
  {
    && n in d.nodes
    && d.nodes[n].kind.DocumentNode?
    && exists c :: c in d.nodes[n].children && IsElement(d, c)
  }

  function IndexOf(s: seq<NodeId>, x: NodeId): (r: nat)
    requires x in s
    ensures r < |s| && s[r] == x && x !in s[..r]
  {
    if s[0] == x then 0
    else
      var i := IndexOf(s[1..], x);
      assert s[1..][..i] == s[1..i + 1];
      i + 1
  }

  lemma NoDupInsert(s: seq<NodeId>, k: nat, x: NodeId)
    requires NoDup(s) && k <= |s| && x !in s
    ensures NoDup(s[..k] + [x] + s[k..])
  {
    var t := s[..k] + [x] + s[k..];
    forall i, j | 0 <= i < j < |t| ensures t[i] != t[j] {
      if i < k && j > k {
        assert t[j] == s[j - 1];
      } else if i > k {
        assert t[i] == s[i - 1] && t[j] == s[j - 1];
      } else if i == k {
        assert t[j] == s[j - 1];
      }
    }
  }

  lemma NoDupRemove(s: seq<NodeId>, k: nat)
    requires NoDup(s) && k < |s|
    ensures NoDup(s[..k] + s[k + 1..])
    ensures forall y :: y in s[..k] + s[k + 1..] <==> y in s && y != s[k]
  {
    var t := s[..k] + s[k + 1..];
    forall i, j | 0 <= i < j < |t| ensures t[i] != t[j] {
      if i >= k {
        assert t[i] == s[i + 1] && t[j] == s[j + 1];
      } else if j >= k {
        assert t[j] == s[j + 1];
      }
    }
    forall y ensures y in t <==> y in s && y != s[k] {
      if y in s && y != s[k] {
        var m := IndexOf(s, y);
        if m < k { assert t[m] == y; } else { assert t[m - 1] == y; }
      }
    }
  }

  /** `s` without the members of `xs`, in order. */
  function ExceptAll(s: seq<NodeId>, xs: seq<NodeId>): (r: seq<NodeId>)
    ensures forall y :: y in r <==> y in s && y !in xs
  {
    if s == [] then [] else (if s[0] in xs then [] else [s[0]]) + ExceptAll(s[1..], xs)
  }

  /** Deleting the only occurrence of `s[k]` is filtering it out. */
  lemma {:induction false} RemoveAtIsExcept(s: seq<NodeId>, k: nat)
    requires NoDup(s) && k < |s|
    ensures s[..k] + s[k + 1..] == ExceptAll(s, [s[k]])
  {
    if k == 0 {
      assert s[0] !in s[1..] by {
        forall j | 1 <= j < |s| ensures s[j] != s[0] { }
      }
      ExceptAbsent(s[1..], [s[0]]);
    } else {
      assert NoDup(s[1..]) by {
        forall i, j | 0 <= i < j < |s[1..]| ensures s[1..][i] != s[1..][j] {
          assert s[1..][i] == s[i + 1] && s[1..][j] == s[j + 1];
        }
      }
      RemoveAtIsExcept(s[1..], k - 1);
      assert s[1..][k - 1] == s[k];
      assert s[0] != s[k];
      assert s[1..][..k - 1] + s[1..][k..] == s[1..k] + s[k + 1..];
      assert s[..k] + s[k + 1..] == [s[0]] + (s[1..k] + s[k + 1..]);
    }
  }

  /** Filtering out values that do not occur changes nothing. */
  lemma {:induction false} ExceptAbsent(s: seq<NodeId>, xs: seq<NodeId>)
    requires forall y :: y in s ==> y !in xs
    ensures ExceptAll(s, xs) == s
  {
    if s != [] {
      ExceptAbsent(s[1..], xs);
    }
  }

  /** Filtering twice is filtering by both lists. */
  lemma {:induction false} ExceptAllTwice(s: seq<NodeId>, a: seq<NodeId>, b: seq<NodeId>)
    ensures ExceptAll(ExceptAll(s, a), b) == ExceptAll(s, a + b)
  {
    if s != [] {
      ExceptAllTwice(s[1..], a, b);
      var head := if s[0] in a then [] else [s[0]];
      var e := ExceptAll(s[1..], a);
      assert ExceptAll(s, a) == head + e;
      if s[0] in a {
        assert ExceptAll(s, a) == e;
      } else {
        assert (head + e)[1..] == e;
      }
    }
  }

  /** CreateElement: a new element with the given name, no attributes, no children
      and no parent yet. */
  function CreateElement(d: Doc, name: string): (r: Doc)
    requires Valid(d)
    ensures Grows(d, r)
    ensures Valid(r) && r.root == d.root && d.next !in d.nodes
    ensures r.nodes == d.nodes[d.next := SrcNode(ElementNode(name), map[], [], None)]
    ensures r.next == d.next + 1
  {
    var r := Doc(d.root, d.nodes[d.next := SrcNode(ElementNode(name), map[], [], None)], d.next + 1);
    assert d.next in d.nodes ==> NodeOk(d, d.next);
    forall n | n in r.nodes ensures NodeOk(r, n) {
      if n != d.next {
        assert NodeOk(d, n);
      }
    }
    r
  }

  /** Puts the parentless node `c` at index `k` of `p`'s children. */
  function InsertChildAt(d: Doc, p: NodeId, c: NodeId, k: nat): (r: Doc)
    requires Valid(d) && IsContainer(d, p) && c in d.nodes && c != p && c != d.root
    requires d.nodes[c].parent.None? && k <= |d.nodes[p].children|
    ensures Grows(d, r)
    ensures Valid(r) && r.root == d.root && r.next == d.next && r.nodes.Keys == d.nodes.Keys
    ensures c !in d.nodes[p].children
    ensures r.nodes[p] == d.nodes[p].(children := d.nodes[p].children[..k] + [c] + d.nodes[p].children[k..])
    ensures r.nodes[c] == d.nodes[c].(parent := Some(p))
    ensures forall n :: n in d.nodes && n != p && n != c ==> r.nodes[n] == d.nodes[n]
  {
    var ch := d.nodes[p].children;
    var r := Doc(d.root, d.nodes[p := d.nodes[p].(children := ch[..k] + [c] + ch[k..])][c := d.nodes[c].(parent := Some(p))], d.next);
    InsertKeepsValid(d, p, c, k, r);
    r
  }

  lemma InsertKeepsValid(d: Doc, p: NodeId, c: NodeId, k: nat, r: Doc)
    requires Valid(d) && IsContainer(d, p) && c in d.nodes && c != p && c != d.root
    requires d.nodes[c].parent.None? && k <= |d.nodes[p].children|
    requires r == Doc(d.root, d.nodes[p := d.nodes[p].(children := d.nodes[p].children[..k] + [c] + d.nodes[p].children[k..])]
                                      [c := d.nodes[c].(parent := Some(p))], d.next)
    ensures Valid(r) && c !in d.nodes[p].children
  {
    var ch := d.nodes[p].children;
    var ch' := ch[..k] + [c] + ch[k..];
    assert NodeOk(d, p) && NodeOk(d, c);
    assert c !in ch;
    NoDupInsert(ch, k, c);
    assert forall y :: y in ch' <==> y in ch || y == c;
    forall n | n in r.nodes ensures NodeOk(r, n) {
      assert NodeOk(d, n);
      if n == p {
        assert r.nodes[n].children == ch';
      } else if n == c {
        assert r.nodes[n].children == d.nodes[c].children;
      } else {
        assert r.nodes[n] == d.nodes[n];
      }
    }
  }

  /** AppendChild: the node becomes the last child of `p`. */
  function AppendChild(d: Doc, p: NodeId, c: NodeId): (r: Doc)
    requires Valid(d) && IsContainer(d, p) && c in d.nodes && c != p && c != d.root && d.nodes[c].parent.None?
    ensures Grows(d, r)
    ensures Valid(r)
  {
    InsertChildAt(d, p, c, |d.nodes[p].children|)
  }

  /** InsertAfter: the node goes right after `ref` among `ref`'s parent's children. */
  function InsertAfter(d: Doc, c: NodeId, ref: NodeId): (r: Doc)
    requires Valid(d) && ref in d.nodes && d.nodes[ref].parent.Some?
    requires c in d.nodes && c != d.root && c != d.nodes[ref].parent.value && d.nodes[c].parent.None?
    ensures Grows(d, r)
    ensures Valid(r)
  {
    var p := d.nodes[ref].parent.value;
    assert NodeOk(d, ref);
    assert NodeOk(d, p);
    InsertChildAt(d, p, c, IndexOf(d.nodes[p].children, ref) + 1)
  }

  /** InsertBefore: the node goes right before `ref` among `ref`'s parent's children. */
  function InsertBefore(d: Doc, c: NodeId, ref: NodeId): (r: Doc)
    requires Valid(d) && ref in d.nodes && d.nodes[ref].parent.Some?
    requires c in d.nodes && c != d.root && c != d.nodes[ref].parent.value && d.nodes[c].parent.None?
    ensures Grows(d, r)
    ensures Valid(r)
  {
    var p := d.nodes[ref].parent.value;
    assert NodeOk(d, ref);
    assert NodeOk(d, p);
    InsertChildAt(d, p, c, IndexOf(d.nodes[p].children, ref))
  }

  /** RemoveChild: detaches the child `c` of `p`; the detached node keeps its subtree. */
  function RemoveChild(d: Doc, p: NodeId, c: NodeId): (r: Doc)
    requires Valid(d) && c in d.nodes && d.nodes[c].parent == Some(p)
    ensures Grows(d, r)
    ensures Valid(r) && r.root == d.root && r.next == d.next && r.nodes.Keys == d.nodes.Keys
    ensures p in d.nodes && c in d.nodes[p].children && p != c
    ensures r.nodes[p] == d.nodes[p].(children := ExceptAll(d.nodes[p].children, [c]))
    ensures r.nodes[c] == d.nodes[c].(parent := None)
    ensures forall n :: n in d.nodes && n != p && n != c ==> r.nodes[n] == d.nodes[n]
  {
    assert NodeOk(d, c);
    var ch := d.nodes[p].children;
    var k := IndexOf(ch, c);
    var r := Doc(d.root, d.nodes[p := d.nodes[p].(children := ch[..k] + ch[k + 1..])][c := d.nodes[c].(parent := None)], d.next);
    assert NodeOk(d, p);
    RemoveAtIsExcept(ch, k);
    RemoveKeepsValid(d, p, c, k, r);
    r
  }

  lemma RemoveKeepsValid(d: Doc, p: NodeId, c: NodeId, k: nat, r: Doc)
    requires Valid(d) && c in d.nodes && d.nodes[c].parent == Some(p) && p in d.nodes
    requires k < |d.nodes[p].children| && d.nodes[p].children[k] == c
    requires r == Doc(d.root, d.nodes[p := d.nodes[p].(children := d.nodes[p].children[..k] + d.nodes[p].children[k + 1..])]
                                      [c := d.nodes[c].(parent := None)], d.next)
    ensures Valid(r)
    ensures forall y :: y in r.nodes[p].children <==> y in d.nodes[p].children && y != c
  {
    var ch := d.nodes[p].children;
    var ch' := ch[..k] + ch[k + 1..];
    assert NodeOk(d, c) && NodeOk(d, p);
    NoDupRemove(ch, k);
    assert c != d.root;
    forall n | n in r.nodes ensures NodeOk(r, n) {
      assert NodeOk(d, n);
      if n == p {
        assert r.nodes[n].children == ch';
      } else if n == c {
        assert r.nodes[n].children == d.nodes[c].children;
      } else {
        assert r.nodes[n] == d.nodes[n];
        assert c !in d.nodes[n].children;
      }
    }
  }

  /** The node's attribute map replaced by `m`; nothing else changes. */
  function WithAttrs(d: Doc, n: NodeId, m: map<string, string>): (r: Doc)
    requires Valid(d) && n in d.nodes
    ensures Valid(r) && Grows(d, r) && r.next == d.next
    ensures r.nodes == d.nodes[n := d.nodes[n].(attrs := m)]
  {
    var r := Doc(d.root, d.nodes[n := d.nodes[n].(attrs := m)], d.next);
    forall k | k in r.nodes ensures NodeOk(r, k) {
      assert NodeOk(d, k);
    }
    r
  }

  /** Setting the value of the attribute with qualified name `key`, creating it when
      absent (XmlAttribute.Value, XmlAttributeCollection.Append). */
  function SetAttribute(d: Doc, n: NodeId, key: string, value: string): (r: Doc)
    requires Valid(d) && n in d.nodes
    ensures Valid(r) && Grows(d, r) && r.next == d.next
    ensures r.nodes == d.nodes[n := d.nodes[n].(attrs := d.nodes[n].attrs[key := value])]
  {
    WithAttrs(d, n, d.nodes[n].attrs[key := value])
  }

  /** Setting InnerXml to a single piece of character data: the old children are
      detached and one new character-data node becomes the only child. */
  function ReplaceContent(d: Doc, n: NodeId, content: string): (r: Doc)
    requires Valid(d) && IsContainer(d, n)
    ensures Grows(d, r)
    ensures Valid(r) && r.root == d.root && r.next == d.next + 1 && d.next !in d.nodes
    ensures r.nodes.Keys == d.nodes.Keys + {d.next}
    ensures r.nodes[n] == d.nodes[n].(children := [d.next])
    ensures r.nodes[d.next] == SrcNode(CharDataNode(content), map[], [], Some(n))
    ensures forall m :: m in d.nodes && m != n ==>
      r.nodes[m] == if m in d.nodes[n].children then d.nodes[m].(parent := None) else d.nodes[m]
  {
    var former := d.nodes[n].children;
    var detached := map m | m in d.nodes :: if m in former then d.nodes[m].(parent := None) else d.nodes[m];
    var r := Doc(d.root, detached[n := d.nodes[n].(children := [d.next])][d.next := SrcNode(CharDataNode(content), map[], [], Some(n))], d.next + 1);
    ReplaceKeepsValid(d, n, content, r);
    r
  }

  lemma ReplaceKeepsValid(d: Doc, n: NodeId, content: string, r: Doc)
    requires Valid(d) && IsContainer(d, n)
    requires r == Doc(d.root,
      (map m | m in d.nodes :: if m in d.nodes[n].children then d.nodes[m].(parent := None) else d.nodes[m])
        [n := d.nodes[n].(children := [d.next])][d.next := SrcNode(CharDataNode(content), map[], [], Some(n))],
      d.next + 1)
    ensures Valid(r) && d.next !in d.nodes
  {
    var former := d.nodes[n].children;
    var t := d.next;
    assert t in d.nodes ==> NodeOk(d, t);
    assert NodeOk(d, n);
    assert n !in former;
    forall m | m in r.nodes ensures NodeOk(r, m) {
      if m == t {
      } else if m == n {
        if d.nodes[n].parent.Some? {
          var q := d.nodes[n].parent.value;
          assert NodeOk(d, q);
          assert r.nodes[q].children == d.nodes[q].children;
        }
      } else if m in former {
        assert NodeOk(d, m);
        assert r.nodes[m] == d.nodes[m].(parent := None);
        forall y | y in d.nodes[m].children ensures y !in former {
          assert NodeOk(d, y);
        }
      } else {
        assert NodeOk(d, m);
        assert r.nodes[m] == d.nodes[m];
        forall y | y in d.nodes[m].children ensures y !in former {
          assert NodeOk(d, y);
        }
        if d.nodes[m].parent.Some? {
          var q := d.nodes[m].parent.value;
          assert NodeOk(d, q);
          assert q != n;
          assert r.nodes[q].children == d.nodes[q].children;
        }
      }
    }
  }
}
