/** The mutable source document (XmlDocument): the arena of SourceTrees held in
    fields that its methods reassign. */
module XmlTrees {
  import opened Util
  import T = SourceTrees

  /** The mutable source document (XmlDocument). Its methods are the DOM operations
      the engine performs; each leaves the document in the state the function of the
      same name computes. */
  class XmlTree {
    const root: T.NodeId
    var nodes: map<T.NodeId, T.SrcNode>
    var next: nat

    /** The document's current state as a value. */
    function Value(): T.Doc
      reads this
    {
      T.Doc(root, nodes, next)
    }

    ghost predicate Valid()
      reads this
    {
      T.Valid(Value())
    }

    constructor (d: T.Doc)
      requires T.Valid(d)
      ensures Valid() && Value() == d
    {
      root, nodes, next := d.root, d.nodes, d.next;
    }

    /** Creates a detached element and returns its identity. */
    method CreateElement(name: string) returns (n: T.NodeId)
      requires Valid()
      modifies this
      ensures Valid() && n == old(next) && n !in old(nodes)
      ensures Value() == T.CreateElement(old(Value()), name)
    {
      var d := T.CreateElement(Value(), name);
      n := next;
      nodes, next := d.nodes, d.next;
    }

    method AppendChild(p: T.NodeId, c: T.NodeId)
      requires Valid() && T.IsContainer(Value(), p) && c in nodes && c != p && c != root && nodes[c].parent.None?
      modifies this
      ensures Valid() && Value() == T.AppendChild(old(Value()), p, c)
    {
      var d := T.AppendChild(Value(), p, c);
      nodes := d.nodes;
    }

    method InsertAfter(c: T.NodeId, ref: T.NodeId)
      requires Valid() && ref in nodes && nodes[ref].parent.Some?
      requires c in nodes && c != root && c != nodes[ref].parent.value && nodes[c].parent.None?
      modifies this
      ensures Valid() && Value() == T.InsertAfter(old(Value()), c, ref)
    {
      var d := T.InsertAfter(Value(), c, ref);
      nodes := d.nodes;
    }

    method InsertBefore(c: T.NodeId, ref: T.NodeId)
      requires Valid() && ref in nodes && nodes[ref].parent.Some?
      requires c in nodes && c != root && c != nodes[ref].parent.value && nodes[c].parent.None?
      modifies this
      ensures Valid() && Value() == T.InsertBefore(old(Value()), c, ref)
    {
      var d := T.InsertBefore(Value(), c, ref);
      nodes := d.nodes;
    }

    method RemoveChild(p: T.NodeId, c: T.NodeId)
      requires Valid() && c in nodes && nodes[c].parent == Some(p)
      modifies this
      ensures Valid() && Value() == T.RemoveChild(old(Value()), p, c)
    {
      var d := T.RemoveChild(Value(), p, c);
      nodes := d.nodes;
    }

    method SetAttribute(n: T.NodeId, key: string, value: string)
      requires Valid() && n in nodes
      modifies this
      ensures Valid() && Value() == T.SetAttribute(old(Value()), n, key, value)
    {
      var d := T.SetAttribute(Value(), n, key, value);
      nodes := d.nodes;
    }

    method ReplaceContent(n: T.NodeId, content: string)
      requires Valid() && T.IsContainer(Value(), n)
      modifies this
      ensures Valid() && Value() == T.ReplaceContent(old(Value()), n, content)
    {
      var d := T.ReplaceContent(Value(), n, content);
      nodes, next := d.nodes, d.next;
    }
  }
}
