/** Patch(XmlNode, XmlNode) and Patch(XmlDocument, XmlDocument) (XmlPatch.cs): the
    walk over the patch document's elements, the patch-node to source-node
    dictionary, and what each action does with the unclaimed candidates. */
module Engine {
  import opened Util
  import opened SourceTrees
  import opened PatchDocuments
  import opened Scheme
  import opened Errors
  import opened Selectors
  import opened Merging
  import opened Crafting
  import NA = NodeActions
  import CM = CraftModes
  import XT = XmlTrees

  /** The source document and the dictionary from patch nodes to their counterparts. */
  datatype State = State(doc: Doc, dict: map<PId, NodeId>)

  /** The state reached and, when the run stops there, the error it stops with. The
      state is kept on an error: nothing is rolled back. */
  datatype StepResult = StepResult(state: State, error: Option<PatchError>)

  /** No source node is the counterpart of two patch nodes. */
  ghost predicate Injective(dict: map<PId, NodeId>)
  {
    forall a, b :: a in dict && b in dict && a != b ==> dict[a] != dict[b]
  }

  /** The run's invariant: a valid document, counterparts that can take children,
      no source node claimed twice. */
  ghost predicate Inv(s: State)
  {
    && Valid(s.doc)
    && (forall k :: k in s.dict ==> IsContainer(s.doc, s.dict[k]))
    && Injective(s.dict)
  }

  lemma GrowsKeepsElements(d: Doc, e: Doc, xs: seq<NodeId>)
    requires Grows(d, e) && forall c :: c in xs ==> IsElement(d, c)
    ensures forall c :: c in xs ==> IsElement(e, c)
  {
    forall c | c in xs ensures IsElement(e, c) {
      assert IsElement(d, c);
    }
  }

  lemma InvGrows(s: State, d: Doc)
    requires Inv(s) && Valid(d) && Grows(s.doc, d)
    ensures Inv(State(d, s.dict))
  {
  }

  /** The found nodes that are no counterpart yet, in their order (XmlPatch.cs:170):
      exactly the unclaimed found nodes are kept, and the first kept is the first
      unclaimed one found. */
  function Unclaimed(found: seq<NodeId>, dict: map<PId, NodeId>): (r: seq<NodeId>)
    ensures forall x :: x in r <==> x in found && x !in dict.Values
    ensures |r| <= |found|
    ensures forall k :: FirstUnclaimedAt(found, dict, k) ==> r != [] && r[0] == found[k]
    decreases |found|
  {
    if found == [] then []
    else
      var rest := Unclaimed(found[1..], dict);
      if found[0] in dict.Values then
        assert forall k :: FirstUnclaimedAt(found, dict, k) ==> k > 0 && FirstUnclaimedAt(found[1..], dict, k - 1);
        rest
      else [found[0]] + rest
  }

  /** `found[k]` is the first found node that is no counterpart yet. */
  predicate FirstUnclaimedAt(found: seq<NodeId>, dict: map<PId, NodeId>, k: int)
  {
    && 0 <= k < |found|
    && found[k] !in dict.Values
    && forall j :: 0 <= j < k ==> found[j] in dict.Values
  }

  /** The unclaimed nodes the match expression finds under the parent's counterpart:
      a node is a candidate exactly when the expression selects it and it is no
      counterpart yet, and the first candidate is the first such node selected. */
  function Candidates(s: State, p: PNode, parentSource: NodeId, select: Selector): (r: seq<NodeId>)
    requires Inv(s) && p.PElement? && SelectorOk(select) && parentSource in s.dict.Values
    requires IsContainer(s.doc, parentSource)
    ensures forall c :: c in r ==> IsElement(s.doc, c)
    ensures forall c :: c in r <==> c in select(s.doc, parentSource, MatchExpression(p)) && c !in s.dict.Values
    ensures forall k :: FirstUnclaimedAt(select(s.doc, parentSource, MatchExpression(p)), s.dict, k) ==>
      r != [] && r[0] == select(s.doc, parentSource, MatchExpression(p))[k]
  {
    var found := select(s.doc, parentSource, MatchExpression(p));
    assert ResultsOk(s.doc, parentSource, found);
    Unclaimed(found, s.dict)
  }

  /** The merge loop (XmlPatch.cs:192-198): each candidate is merged and then
      registered; without `all` the loop stops after the first. Registering a patch
      node that is already a key fails (Dictionary.Add), after that merge. */
  function MergeEach(s: State, p: PNode, cands: seq<NodeId>, all: bool): (r: StepResult)
    requires Inv(s) && p.PElement?
    requires forall c :: c in cands ==> IsElement(s.doc, c)
    requires p.id in s.dict || cands == [] || cands[0] !in s.dict.Values
    ensures Inv(r.state) && Grows(s.doc, r.state.doc)
    decreases |cands|
  {
    if cands == [] then StepResult(s, None)
    else
      var d := MergeSpec(s.doc, cands[0], p);
      if p.id in s.dict then StepResult(State(d, s.dict), Some(DuplicateKey(p.id)))
      else
        var s' := State(d, s.dict[p.id := cands[0]]);
        assert Inv(s');
        if !all then StepResult(s', None)
        else
          GrowsKeepsElements(s.doc, d, cands[1..]);
          var r := MergeEach(s', p, cands[1..], all);
          GrowsTransitive(s.doc, d, r.state.doc);
          r
  }

  /** One turn of the merge loop. */
  lemma MergeEachFirst(s: State, p: PNode, cands: seq<NodeId>, all: bool)
    requires Inv(s) && p.PElement? && cands != []
    requires forall c :: c in cands ==> IsElement(s.doc, c)
    requires p.id in s.dict || cands[0] !in s.dict.Values
    ensures var d := MergeSpec(s.doc, cands[0], p);
      && (forall c :: c in cands[1..] ==> IsElement(d, c))
      && (p.id in s.dict ==> MergeEach(s, p, cands, all) == StepResult(State(d, s.dict), Some(DuplicateKey(p.id))))
      && (p.id !in s.dict ==>
            && Inv(State(d, s.dict[p.id := cands[0]]))
            && (!all ==> MergeEach(s, p, cands, all) == StepResult(State(d, s.dict[p.id := cands[0]]), None))
            && (all ==> MergeEach(s, p, cands, all) == MergeEach(State(d, s.dict[p.id := cands[0]]), p, cands[1..], all)))
  {
    GrowsKeepsElements(s.doc, MergeSpec(s.doc, cands[0], p), cands[1..]);
  }

  /** The remove loop (XmlPatch.cs:204-209): each candidate is detached from the
      parent's counterpart, and one that is not its child is an error; without `all`
      the loop stops after the first. */
  function RemoveEach(s: State, parentSource: NodeId, cands: seq<NodeId>, all: bool): (r: StepResult)
    requires Inv(s) && forall c :: c in cands ==> c in s.doc.nodes
    ensures Inv(r.state) && Grows(s.doc, r.state.doc) && r.state.dict == s.dict
    decreases |cands|
  {
    if cands == [] then StepResult(s, None)
    else
      var c := cands[0];
      if s.doc.nodes[c].parent != Some(parentSource) then StepResult(s, Some(NotAChild(c)))
      else
        var s' := State(RemoveChild(s.doc, parentSource, c), s.dict);
        if !all then StepResult(s', None)
        else
          var r := RemoveEach(s', parentSource, cands[1..], all);
          GrowsTransitive(s.doc, s'.doc, r.state.doc);
          r
  }

  /** Crafting a counterpart (XmlPatch.cs:183-190): no element means the patch node is
      skipped with no change; a new element is merged and registered. */
  function CraftAndMerge(s: State, p: PNode, parentSource: NodeId, select: Selector, all: bool): (r: StepResult)
    requires Inv(s) && p.PElement? && SelectorOk(select) && IsContainer(s.doc, parentSource)
    ensures Inv(r.state) && Grows(s.doc, r.state.doc)
  {
    match CraftSpec(s.doc, p, parentSource, select)
    case Skipped => StepResult(s, None)
    case Failed(e) => StepResult(s, Some(e))
    case Crafted(d, c) =>
      InvGrows(s, d);
      var r := MergeEach(State(d, s.dict), p, [c], all);
      GrowsTransitive(s.doc, d, r.state.doc);
      r
  }

  /** One turn of the walk (XmlPatch.cs:133-214) for the patch element `v.node`: its
      parent's counterpart is looked up, its action resolved and carried out. */
  function Step(s: State, v: Visit, select: Selector): (r: StepResult)
    requires Inv(s) && SelectorOk(select) && v.node.PElement?
    ensures Inv(r.state) && Grows(s.doc, r.state.doc)
  {
    if v.parent !in s.dict then StepResult(s, Some(MissingParent(v.parent)))
    else
      match ResolveAction(v.node)
      case Err(e) => StepResult(s, Some(e))
      case Ok(action) => Act(s, v.node, s.dict[v.parent], action, select)
  }

  /** What an action does with the candidates under the parent's counterpart
      (XmlPatch.cs:162-213). */
  function Act(s: State, p: PNode, parentSource: NodeId, action: NA.NodeAction, select: Selector): (r: StepResult)
    requires Inv(s) && SelectorOk(select) && p.PElement?
    requires parentSource in s.dict.Values && IsContainer(s.doc, parentSource)
    ensures Inv(r.state) && Grows(s.doc, r.state.doc)
  {
    match action
    case Create => CraftAndMerge(s, p, parentSource, select, false)
    case Merge => MergeOrCraft(s, p, parentSource, select, false)
    case MergeAll => MergeOrCraft(s, p, parentSource, select, true)
    case Remove => RemoveEach(s, parentSource, Candidates(s, p, parentSource, select), false)
    case RemoveAll => RemoveEach(s, parentSource, Candidates(s, p, parentSource, select), true)
  }

  /** Merge and MergeAll: the candidates are merged, and with none a counterpart is
      crafted (XmlPatch.cs:183-190). */
  function MergeOrCraft(s: State, p: PNode, parentSource: NodeId, select: Selector, all: bool): (r: StepResult)
    requires Inv(s) && SelectorOk(select) && p.PElement?
    requires parentSource in s.dict.Values && IsContainer(s.doc, parentSource)
    ensures Inv(r.state) && Grows(s.doc, r.state.doc)
  {
    var cands := Candidates(s, p, parentSource, select);
    if cands == [] then CraftAndMerge(s, p, parentSource, select, all) else MergeEach(s, p, cands, all)
  }

  /** The walk over the listed elements, stopping at the first error. */
  function Run(s: State, visits: seq<Visit>, select: Selector): (r: StepResult)
    requires Inv(s) && SelectorOk(select) && forall v :: v in visits ==> v.node.PElement?
    ensures Inv(r.state) && Grows(s.doc, r.state.doc)
    decreases |visits|
  {
    if visits == [] then StepResult(s, None)
    else
      var r := Step(s, visits[0], select);
      if r.error.Some? then r
      else
        var r' := Run(r.state, visits[1..], select);
        GrowsTransitive(s.doc, r.state.doc, r'.state.doc);
        r'
  }

  /** Patch(sourceRoot, patchRoot): the dictionary starts with patchRoot mapped to
      sourceRoot, and the walk covers every element of the patch document. */
  function PatchRun(d: Doc, sourceRoot: NodeId, patch: PatchDoc, patchRoot: PId, select: Selector): (r: StepResult)
    requires Valid(d) && IsContainer(d, sourceRoot) && patch.root.PElement? && SelectorOk(select)
    ensures Inv(r.state) && Grows(d, r.state.doc)
  {
    AllNodesListing(patch, patch.root);
    Run(State(d, map[patchRoot := sourceRoot]), AllNodes(patch), select)
  }

  // ---------------------------------------------------------------------------
  // What one step does

  /** A step whose parent is registered and whose action resolves carries it out. */
  lemma StepActs(s: State, v: Visit, select: Selector, action: NA.NodeAction)
    requires Inv(s) && SelectorOk(select) && v.node.PElement? && v.parent in s.dict
    requires ResolveAction(v.node) == Ok(action)
    ensures IsContainer(s.doc, s.dict[v.parent])
    ensures Step(s, v, select) == Act(s, v.node, s.dict[v.parent], action, select)
  {
  }

  /** Create crafts whatever the source holds. */
  lemma ActCreates(s: State, p: PNode, ps: NodeId, select: Selector)
    requires Inv(s) && SelectorOk(select) && p.PElement?
    requires ps in s.dict.Values && IsContainer(s.doc, ps)
    ensures Act(s, p, ps, NA.Create, select) == CraftAndMerge(s, p, ps, select, false)
  {
  }

  /** Merge and MergeAll merge the candidates when there are some, and craft otherwise. */
  lemma ActMerges(s: State, p: PNode, ps: NodeId, action: NA.NodeAction, select: Selector)
    requires Inv(s) && SelectorOk(select) && p.PElement?
    requires ps in s.dict.Values && IsContainer(s.doc, ps)
    requires action == NA.Merge || action == NA.MergeAll
    ensures var cands := Candidates(s, p, ps, select);
      && (cands != [] ==> Act(s, p, ps, action, select) == MergeEach(s, p, cands, action == NA.MergeAll))
      && (cands == [] ==> Act(s, p, ps, action, select) == CraftAndMerge(s, p, ps, select, action == NA.MergeAll))
  {
  }

  /** Remove and RemoveAll detach the candidates. */
  lemma ActRemoves(s: State, p: PNode, ps: NodeId, action: NA.NodeAction, select: Selector)
    requires Inv(s) && SelectorOk(select) && p.PElement?
    requires ps in s.dict.Values && IsContainer(s.doc, ps)
    requires action == NA.Remove || action == NA.RemoveAll
    ensures Act(s, p, ps, action, select) == RemoveEach(s, ps, Candidates(s, p, ps, select), action == NA.RemoveAll)
  {
  }

  /** The parent was never registered (skipped, removed, or outside the dictionary):
      the run stops and nothing changes. */
  lemma MissingParentFails(s: State, v: Visit, select: Selector)
    requires Inv(s) && SelectorOk(select) && v.node.PElement? && v.parent !in s.dict
    ensures Step(s, v, select) == StepResult(s, Some(MissingParent(v.parent)))
  {
  }

  /** Existing entries stay, and every new entry maps the visited node to a node that
      was unclaimed. */
  lemma StepRegistersUnclaimed(s: State, v: Visit, select: Selector)
    requires Inv(s) && SelectorOk(select) && v.node.PElement?
    ensures var r := Step(s, v, select);
      && (forall k :: k in s.dict ==> k in r.state.dict && r.state.dict[k] == s.dict[k])
      && (forall k :: k in r.state.dict && k !in s.dict ==>
            k == v.node.id && r.state.dict[k] !in s.dict.Values)
  {
    if v.parent in s.dict && ResolveAction(v.node).Ok? {
      var ps := s.dict[v.parent];
      var p := v.node;
      var action := ResolveAction(p).value;
      StepActs(s, v, select, action);
      if action == NA.Create {
        ActCreates(s, p, ps, select);
        CraftAndMergeRegisters(s, p, ps, select, false);
      } else if action == NA.Merge || action == NA.MergeAll {
        ActMerges(s, p, ps, action, select);
        var cands := Candidates(s, p, ps, select);
        if cands == [] {
          CraftAndMergeRegisters(s, p, ps, select, action == NA.MergeAll);
        } else {
          MergeEachRegisters(s, p, cands, action == NA.MergeAll);
        }
      } else {
        ActRemoves(s, p, ps, action, select);
      }
    }
  }

  lemma CraftAndMergeRegisters(s: State, p: PNode, parentSource: NodeId, select: Selector, all: bool)
    requires Inv(s) && p.PElement? && SelectorOk(select) && IsContainer(s.doc, parentSource)
    ensures var r := CraftAndMerge(s, p, parentSource, select, all);
      && (forall k :: k in s.dict ==> k in r.state.dict && r.state.dict[k] == s.dict[k])
      && (forall k :: k in r.state.dict && k !in s.dict ==> k == p.id && r.state.dict[k] !in s.dict.Values)
  {
    var c := CraftSpec(s.doc, p, parentSource, select);
    if c.Crafted? {
      assert c.node !in s.dict.Values;
      InvGrows(s, c.doc);
      MergeEachRegisters(State(c.doc, s.dict), p, [c.node], all);
    }
  }

  lemma {:induction false} MergeEachRegisters(s: State, p: PNode, cands: seq<NodeId>, all: bool)
    requires Inv(s) && p.PElement?
    requires forall c :: c in cands ==> IsElement(s.doc, c) && c !in s.dict.Values
    ensures var r := MergeEach(s, p, cands, all);
      && (forall k :: k in s.dict ==> k in r.state.dict && r.state.dict[k] == s.dict[k])
      && (forall k :: k in r.state.dict && k !in s.dict ==> k == p.id && r.state.dict[k] !in s.dict.Values)
  {
    if cands != [] && p.id !in s.dict && all {
      var d := MergeSpec(s.doc, cands[0], p);
      var s' := State(d, s.dict[p.id := cands[0]]);
      GrowsKeepsElements(s.doc, d, cands[1..]);
      MergeEachAfterRegistration(s', p, cands[1..], all);
    }
  }

  /** Once the patch node is a key, the merge loop adds no entry. */
  lemma {:induction false} MergeEachAfterRegistration(s: State, p: PNode, cands: seq<NodeId>, all: bool)
    requires Inv(s) && p.PElement? && p.id in s.dict
    requires forall c :: c in cands ==> IsElement(s.doc, c)
    ensures MergeEach(s, p, cands, all).state.dict == s.dict
  {
  }

  /** Merge: the first candidate is merged and becomes the counterpart; later
      candidates are untouched. */
  lemma MergeRegistersFirst(s: State, v: Visit, select: Selector)
    requires Inv(s) && SelectorOk(select) && v.node.PElement? && v.parent in s.dict
    requires ResolveAction(v.node) == Ok(NA.Merge) && v.node.id !in s.dict
    requires Candidates(s, v.node, s.dict[v.parent], select) != []
    ensures var c := Candidates(s, v.node, s.dict[v.parent], select)[0];
      Step(s, v, select) == StepResult(State(MergeSpec(s.doc, c, v.node), s.dict[v.node.id := c]), None)
  {
    StepActs(s, v, select, NA.Merge);
    ActMerges(s, v.node, s.dict[v.parent], NA.Merge, select);
  }

  /** MergeAll with two or more candidates: both the first and the second are merged,
      the first is registered, and registering the second fails on the patch node
      that is already a key. */
  lemma MergeAllSecondCandidateFails(s: State, v: Visit, select: Selector)
    requires Inv(s) && SelectorOk(select) && v.node.PElement? && v.parent in s.dict
    requires ResolveAction(v.node) == Ok(NA.MergeAll) && v.node.id !in s.dict
    requires |Candidates(s, v.node, s.dict[v.parent], select)| >= 2
    ensures var cands := Candidates(s, v.node, s.dict[v.parent], select);
      var d1 := MergeSpec(s.doc, cands[0], v.node);
      && IsElement(d1, cands[1])
      && Step(s, v, select) ==
         StepResult(State(MergeSpec(d1, cands[1], v.node), s.dict[v.node.id := cands[0]]),
                    Some(DuplicateKey(v.node.id)))
  {
    StepActs(s, v, select, NA.MergeAll);
    ActMerges(s, v.node, s.dict[v.parent], NA.MergeAll, select);
    MergeEachTwo(s, v.node, Candidates(s, v.node, s.dict[v.parent], select));
  }

  lemma MergeEachTwo(s: State, p: PNode, cands: seq<NodeId>)
    requires Inv(s) && p.PElement? && p.id !in s.dict && |cands| >= 2
    requires forall c :: c in cands ==> IsElement(s.doc, c) && c !in s.dict.Values
    ensures var d1 := MergeSpec(s.doc, cands[0], p);
      && IsElement(d1, cands[1])
      && MergeEach(s, p, cands, true) ==
         StepResult(State(MergeSpec(d1, cands[1], p), s.dict[p.id := cands[0]]), Some(DuplicateKey(p.id)))
  {
    var d1 := MergeSpec(s.doc, cands[0], p);
    var s1 := State(d1, s.dict[p.id := cands[0]]);
    GrowsKeepsElements(s.doc, d1, cands[1..]);
    assert MergeEach(s, p, cands, true) == MergeEach(s1, p, cands[1..], true);
    assert cands[1..][0] == cands[1];
  }

  /** MergeAll with a single candidate merges and registers it. */
  lemma MergeAllSingleCandidate(s: State, v: Visit, select: Selector)
    requires Inv(s) && SelectorOk(select) && v.node.PElement? && v.parent in s.dict
    requires ResolveAction(v.node) == Ok(NA.MergeAll) && v.node.id !in s.dict
    requires |Candidates(s, v.node, s.dict[v.parent], select)| == 1
    ensures var c := Candidates(s, v.node, s.dict[v.parent], select)[0];
      Step(s, v, select) == StepResult(State(MergeSpec(s.doc, c, v.node), s.dict[v.node.id := c]), None)
  {
    StepActs(s, v, select, NA.MergeAll);
    ActMerges(s, v.node, s.dict[v.parent], NA.MergeAll, select);
    MergeEachOne(s, v.node, Candidates(s, v.node, s.dict[v.parent], select));
  }

  lemma MergeEachOne(s: State, p: PNode, cands: seq<NodeId>)
    requires Inv(s) && p.PElement? && p.id !in s.dict && |cands| == 1
    requires forall c :: c in cands ==> IsElement(s.doc, c) && c !in s.dict.Values
    ensures MergeEach(s, p, cands, true) ==
      StepResult(State(MergeSpec(s.doc, cands[0], p), s.dict[p.id := cands[0]]), None)
  {
    assert cands[1..] == [];
  }

  /** Merge or MergeAll with no unclaimed candidate crafts the counterpart. */
  lemma NoCandidateCrafts(s: State, v: Visit, select: Selector)
    requires Inv(s) && SelectorOk(select) && v.node.PElement? && v.parent in s.dict
    requires ResolveAction(v.node) == Ok(NA.Merge) || ResolveAction(v.node) == Ok(NA.MergeAll)
    requires Candidates(s, v.node, s.dict[v.parent], select) == []
    ensures Step(s, v, select) == CraftAndMerge(s, v.node, s.dict[v.parent], select, ResolveAction(v.node) == Ok(NA.MergeAll))
  {
    var action := ResolveAction(v.node).value;
    StepActs(s, v, select, action);
    ActMerges(s, v.node, s.dict[v.parent], action, select);
  }

  /** Create never looks for candidates: a crafted element, which is new and so none
      of the existing matches, is merged and registered. */
  lemma CreateIgnoresMatches(s: State, v: Visit, select: Selector)
    requires Inv(s) && SelectorOk(select) && v.node.PElement? && v.parent in s.dict
    requires ResolveAction(v.node) == Ok(NA.Create) && v.node.id !in s.dict
    requires CraftSpec(s.doc, v.node, s.dict[v.parent], select).Crafted?
    ensures var c := CraftSpec(s.doc, v.node, s.dict[v.parent], select);
      && c.node !in s.doc.nodes
      && Step(s, v, select) == StepResult(State(MergeSpec(c.doc, c.node, v.node), s.dict[v.node.id := c.node]), None)
  {
    StepActs(s, v, select, NA.Create);
    ActCreates(s, v.node, s.dict[v.parent], select);
  }

  /** An element that cannot be crafted for lack of a reference is skipped: no change,
      no entry, so its own children will find no parent. */
  lemma SkippedLeavesNoTrace(s: State, v: Visit, select: Selector)
    requires Inv(s) && SelectorOk(select) && v.node.PElement? && v.parent in s.dict
    requires ResolveAction(v.node) == Ok(NA.Create) ||
      ((ResolveAction(v.node) == Ok(NA.Merge) || ResolveAction(v.node) == Ok(NA.MergeAll)) &&
       Candidates(s, v.node, s.dict[v.parent], select) == [])
    requires CraftSpec(s.doc, v.node, s.dict[v.parent], select) == Skipped
    ensures Step(s, v, select) == StepResult(s, None)
  {
    var action := ResolveAction(v.node).value;
    StepActs(s, v, select, action);
    if action == NA.Create {
      ActCreates(s, v.node, s.dict[v.parent], select);
    } else {
      ActMerges(s, v.node, s.dict[v.parent], action, select);
    }
  }

  /** A patch element that needs crafting under a document node stops the run with no
      change: without a `create` directive the reference is the document node itself,
      which has no owner document to create the element through. This is the fate of
      a patch document element that matches nothing in the source. */
  lemma CraftUnderDocumentFails(s: State, v: Visit, select: Selector)
    requires Inv(s) && SelectorOk(select) && v.node.PElement? && v.parent in s.dict
    requires s.doc.nodes[s.dict[v.parent]].kind.DocumentNode? && CreateDirective(v.node).None?
    requires ResolveAction(v.node) == Ok(NA.Create) ||
      ((ResolveAction(v.node) == Ok(NA.Merge) || ResolveAction(v.node) == Ok(NA.MergeAll)) &&
       Candidates(s, v.node, s.dict[v.parent], select) == [])
    ensures Step(s, v, select) == StepResult(s, Some(NoOwnerDocument(s.dict[v.parent])))
  {
    var ps := s.dict[v.parent];
    NoDirectiveAppends(s.doc, v.node, ps, select);
    PlaceEffect(s.doc, GetNodeXName(v.node, false), ps, CM.Append);
    var action := ResolveAction(v.node).value;
    StepActs(s, v, select, action);
    if action == NA.Create {
      ActCreates(s, v.node, ps, select);
    } else {
      ActMerges(s, v.node, ps, action, select);
    }
  }

  /** Remove and RemoveAll never register the patch node. */
  lemma RemoveRegistersNothing(s: State, v: Visit, select: Selector)
    requires Inv(s) && SelectorOk(select) && v.node.PElement? && v.parent in s.dict
    requires ResolveAction(v.node) == Ok(NA.Remove) || ResolveAction(v.node) == Ok(NA.RemoveAll)
    ensures Step(s, v, select).state.dict == s.dict
  {
    var action := ResolveAction(v.node).value;
    StepActs(s, v, select, action);
    ActRemoves(s, v.node, s.dict[v.parent], action, select);
  }

  /** Remove detaches only the first candidate, which must be a child of the parent's
      counterpart; otherwise the run stops on it with no change. */
  lemma RemoveFirstOnly(s: State, v: Visit, select: Selector)
    requires Inv(s) && SelectorOk(select) && v.node.PElement? && v.parent in s.dict
    requires ResolveAction(v.node) == Ok(NA.Remove)
    requires Candidates(s, v.node, s.dict[v.parent], select) != []
    ensures var ps := s.dict[v.parent];
      var c := Candidates(s, v.node, ps, select)[0];
      && (s.doc.nodes[c].parent == Some(ps) ==>
            Step(s, v, select) == StepResult(State(RemoveChild(s.doc, ps, c), s.dict), None))
      && (s.doc.nodes[c].parent != Some(ps) ==>
            Step(s, v, select) == StepResult(s, Some(NotAChild(c))))
  {
    StepActs(s, v, select, NA.Remove);
    ActRemoves(s, v.node, s.dict[v.parent], NA.Remove, select);
  }

  /** RemoveAll over distinct children of the parent's counterpart detaches exactly
      them: the parent keeps its other children in order, each detached node keeps
      its subtree, nothing else changes. */
  lemma RemoveAllDetachesExactly(s: State, v: Visit, select: Selector)
    requires Inv(s) && SelectorOk(select) && v.node.PElement? && v.parent in s.dict
    requires ResolveAction(v.node) == Ok(NA.RemoveAll)
    requires var ps := s.dict[v.parent];
      var cands := Candidates(s, v.node, ps, select);
      NoDup(cands) && forall c :: c in cands ==> s.doc.nodes[c].parent == Some(ps)
    ensures var ps := s.dict[v.parent];
      var cands := Candidates(s, v.node, ps, select);
      var r := Step(s, v, select);
      && r.error.None? && r.state.dict == s.dict
      && RemovedExactly(s.doc, r.state.doc, ps, cands)
  {
    var ps := s.dict[v.parent];
    StepActs(s, v, select, NA.RemoveAll);
    ActRemoves(s, v.node, ps, NA.RemoveAll, select);
    RemoveEachEffect(s, ps, Candidates(s, v.node, ps, select));
  }

  /** `e` is `d` with the nodes of `cands` detached from `ps`. */
  ghost predicate RemovedExactly(d: Doc, e: Doc, ps: NodeId, cands: seq<NodeId>)
  {
    && ps in d.nodes && e.nodes.Keys == d.nodes.Keys
    && e.nodes[ps] == d.nodes[ps].(children := ExceptAll(d.nodes[ps].children, cands))
    && (forall c :: c in cands ==> c in d.nodes && e.nodes[c] == d.nodes[c].(parent := None))
    && (forall n :: n in d.nodes && n != ps && n !in cands ==> e.nodes[n] == d.nodes[n])
  }

  lemma {:induction false} RemoveEachEffect(s: State, ps: NodeId, cands: seq<NodeId>)
    requires Inv(s) && ps in s.doc.nodes && NoDup(cands)
    requires forall c :: c in cands ==> c in s.doc.nodes && s.doc.nodes[c].parent == Some(ps)
    ensures var r := RemoveEach(s, ps, cands, true);
      r.error.None? && RemovedExactly(s.doc, r.state.doc, ps, cands)
    decreases |cands|
  {
    if cands == [] {
      ExceptAbsent(s.doc.nodes[ps].children, []);
      assert s.doc.nodes[ps] == s.doc.nodes[ps].(children := s.doc.nodes[ps].children);
    } else {
      var c := cands[0];
      var rest := cands[1..];
      var d1 := RemoveChild(s.doc, ps, c);
      var s' := State(d1, s.dict);
      assert c !in rest by {
        forall j | 0 <= j < |rest| ensures rest[j] != c { assert rest[j] == cands[j + 1]; }
      }
      assert NoDup(rest) by {
        forall i, j | 0 <= i < j < |rest| ensures rest[i] != rest[j] {
          assert rest[i] == cands[i + 1] && rest[j] == cands[j + 1];
        }
      }
      forall x | x in rest ensures x in d1.nodes && d1.nodes[x].parent == Some(ps) && x != ps {
        assert NodeOk(s.doc, x);
        assert x != c && x != ps;
      }
      assert RemoveEach(s, ps, cands, true) == RemoveEach(s', ps, rest, true);
      RemoveEachEffect(s', ps, rest);
      RemovedCompose(s.doc, d1, RemoveEach(s', ps, rest, true).state.doc, ps, c, rest);
      assert [c] + rest == cands;
    }
  }

  /** Detaching `c` and then `rest` detaches `[c] + rest`. */
  lemma RemovedCompose(d: Doc, d1: Doc, e: Doc, ps: NodeId, c: NodeId, rest: seq<NodeId>)
    requires c !in rest && c != ps && ps !in rest
    requires RemovedExactly(d, d1, ps, [c]) && RemovedExactly(d1, e, ps, rest)
    ensures RemovedExactly(d, e, ps, [c] + rest)
  {
    ExceptAllTwice(d.nodes[ps].children, [c], rest);
    forall x | x in [c] + rest ensures x in d.nodes && e.nodes[x] == d.nodes[x].(parent := None) {
      if x == c {
        assert e.nodes[c] == d1.nodes[c];
      } else {
        assert x in rest && x != ps && x != c;
        assert d1.nodes[x] == d.nodes[x];
      }
    }
  }

  // ---------------------------------------------------------------------------
  // What the walk does

  /** An entry, once made, is never changed or dropped for the rest of the walk; with
      the invariant that `Run` keeps this is why no source node is ever claimed by
      two patch nodes. */
  lemma {:induction false} EntriesStay(s: State, visits: seq<Visit>, select: Selector)
    requires Inv(s) && SelectorOk(select) && forall v :: v in visits ==> v.node.PElement?
    ensures forall k :: k in s.dict ==>
      k in Run(s, visits, select).state.dict && Run(s, visits, select).state.dict[k] == s.dict[k]
    decreases |visits|
  {
    if visits != [] {
      var r := Step(s, visits[0], select);
      StepKeepsEntries(s, visits[0], select);
      if r.error.None? {
        assert forall v :: v in visits[1..] ==> v in visits;
        assert Run(s, visits, select) == Run(r.state, visits[1..], select);
        EntriesStay(r.state, visits[1..], select);
      }
    }
  }

  lemma StepKeepsEntries(s: State, v: Visit, select: Selector)
    requires Inv(s) && SelectorOk(select) && v.node.PElement?
    ensures forall k :: k in s.dict ==>
      k in Step(s, v, select).state.dict && Step(s, v, select).state.dict[k] == s.dict[k]
  {
    StepRegistersUnclaimed(s, v, select);
  }

  /** A patch element whose parent was skipped or removed stops the run at that
      element: here the two are consecutive in the walk. */
  lemma ChildOfUnregisteredFails(s: State, parent: Visit, child: Visit, select: Selector)
    requires Inv(s) && SelectorOk(select) && parent.node.PElement? && child.node.PElement?
    requires child.parent == parent.node.id && parent.node.id !in s.dict
    requires Step(s, parent, select).error.None?
    requires Step(s, parent, select).state.dict == s.dict
    ensures Run(s, [parent, child], select) ==
      StepResult(Step(s, parent, select).state, Some(MissingParent(parent.node.id)))
  {
    var r := Step(s, parent, select);
    assert [parent, child][1..] == [child];
    assert Run(r.state, [child], select) == StepResult(r.state, Some(MissingParent(parent.node.id)));
  }

  /** Patch with an element as the patch root cannot work: the walk always starts at
      the document element, whose parent is the document node, which is then not in
      the dictionary; the run stops before any change. */
  lemma ElementPatchRootFails(d: Doc, sourceRoot: NodeId, patch: PatchDoc, patchRoot: PId, select: Selector)
    requires Valid(d) && IsContainer(d, sourceRoot) && patch.root.PElement? && SelectorOk(select)
    requires patchRoot != patch.id
    ensures PatchRun(d, sourceRoot, patch, patchRoot, select) ==
      StepResult(State(d, map[patchRoot := sourceRoot]), Some(MissingParent(patch.id)))
  {
    AllNodesListing(patch, patch.root);
  }

  /** The document-level entry maps the patch document to the source document and
      walks from there: its first step handles the patch's document element with the
      source document node as the parent counterpart. */
  lemma DocumentEntryStartsAtRoot(d: Doc, patch: PatchDoc, select: Selector)
    requires Valid(d) && patch.root.PElement? && SelectorOk(select)
    ensures IsContainer(d, d.root)
    ensures AllNodes(patch) != [] && forall v :: v in AllNodes(patch)[1..] ==> v.node.PElement?
    ensures var s := State(d, map[patch.id := d.root]);
      var r := Step(s, Visit(patch.id, patch.root), select);
      PatchRun(d, d.root, patch, patch.id, select) ==
        if r.error.Some? then r else Run(r.state, AllNodes(patch)[1..], select)
  {
    AllNodesListing(patch, patch.root);
    var vs := AllNodes(patch);
    assert forall v :: v in vs[1..] ==> v in vs;
    var s := State(d, map[patch.id := d.root]);
    assert PatchRun(d, d.root, patch, patch.id, select) == Run(s, vs, select);
  }

  // ---------------------------------------------------------------------------
  // The engine on the mutable document

  /** The merge loop on the mutable document and the dictionary. */
  method MergeCandidates(t: XT.XmlTree, dict: map<PId, NodeId>, p: PNode, cands: seq<NodeId>, all: bool)
    returns (dict': map<PId, NodeId>, error: Option<PatchError>)
    requires Inv(State(t.Value(), dict)) && p.PElement?
    requires forall c :: c in cands ==> IsElement(t.Value(), c)
    requires p.id in dict || cands == [] || cands[0] !in dict.Values
    modifies t
    ensures StepResult(State(t.Value(), dict'), error) == MergeEach(State(old(t.Value()), dict), p, cands, all)
  {
    dict' := dict;
    var i := 0;
    while i < |cands|
      invariant 0 <= i <= |cands|
      invariant Inv(State(t.Value(), dict')) && t.Valid()
      invariant forall c :: c in cands[i..] ==> IsElement(t.Value(), c)
      invariant p.id in dict' || i == |cands| || cands[i] !in dict'.Values
      invariant i > 0 ==> p.id in dict'
      invariant MergeEach(State(old(t.Value()), dict), p, cands, all) ==
        MergeEach(State(t.Value(), dict'), p, cands[i..], all)
      decreases |cands| - i
    {
      var foundSourceNode := cands[i];
      ghost var before := State(t.Value(), dict');
      MergeEachFirst(before, p, cands[i..], all);
      MergeNodes(t, foundSourceNode, p);
      if p.id in dict' {
        return dict', Some(DuplicateKey(p.id));
      }
      dict' := dict'[p.id := foundSourceNode];
      if !all {
        return dict', None;
      }
      assert cands[i..][1..] == cands[i + 1..];
      i := i + 1;
    }
    return dict', None;
  }

  /** The remove loop on the mutable document. */
  method RemoveCandidates(t: XT.XmlTree, dict: map<PId, NodeId>, parentSource: NodeId, cands: seq<NodeId>, all: bool)
    returns (error: Option<PatchError>)
    requires Inv(State(t.Value(), dict)) && forall c :: c in cands ==> c in t.nodes
    modifies t
    ensures StepResult(State(t.Value(), dict), error) == RemoveEach(State(old(t.Value()), dict), parentSource, cands, all)
  {
    var i := 0;
    while i < |cands|
      invariant 0 <= i <= |cands|
      invariant Inv(State(t.Value(), dict)) && t.Valid()
      invariant forall c :: c in cands[i..] ==> c in t.nodes
      invariant RemoveEach(State(old(t.Value()), dict), parentSource, cands, all) ==
        RemoveEach(State(t.Value(), dict), parentSource, cands[i..], all)
      decreases |cands| - i
    {
      var foundSourceNode := cands[i];
      if t.nodes[foundSourceNode].parent != Some(parentSource) {
        return Some(NotAChild(foundSourceNode));
      }
      ghost var before := State(t.Value(), dict);
      t.RemoveChild(parentSource, foundSourceNode);
      if !all {
        return None;
      }
      assert cands[i..][1..] == cands[i + 1..];
      assert RemoveEach(before, parentSource, cands[i..], all) ==
        RemoveEach(State(t.Value(), dict), parentSource, cands[i + 1..], all);
      i := i + 1;
    }
    return None;
  }

  /** One patch element on the mutable document (the body of the walk). */
  method PatchNode(t: XT.XmlTree, dict: map<PId, NodeId>, v: Visit, select: Selector)
    returns (dict': map<PId, NodeId>, error: Option<PatchError>)
    requires Inv(State(t.Value(), dict)) && SelectorOk(select) && v.node.PElement?
    modifies t
    ensures StepResult(State(t.Value(), dict'), error) == Step(State(old(t.Value()), dict), v, select)
  {
    ghost var s := State(t.Value(), dict);
    var patchNode := v.node;
    if v.parent !in dict {
      return dict, Some(MissingParent(v.parent));
    }
    var parentSource := dict[v.parent];
    var resolved := ResolveAction(patchNode);
    if resolved.Err? {
      return dict, Some(resolved.error);
    }
    var action := resolved.value;
    StepActs(s, v, select, action);
    dict', error := ApplyAction(t, dict, patchNode, parentSource, action, select);
  }

  /** The candidates of a patch element and what its action does with them. */
  method ApplyAction(t: XT.XmlTree, dict: map<PId, NodeId>, patchNode: PNode, parentSource: NodeId,
                     action: NA.NodeAction, select: Selector)
    returns (dict': map<PId, NodeId>, error: Option<PatchError>)
    requires Inv(State(t.Value(), dict)) && SelectorOk(select) && patchNode.PElement?
    requires parentSource in dict.Values && IsContainer(t.Value(), parentSource)
    modifies t
    ensures StepResult(State(t.Value(), dict'), error) ==
      Act(State(old(t.Value()), dict), patchNode, parentSource, action, select)
  {
    var foundSourceNodes: seq<NodeId> := [];
    if action != NA.Create {
      foundSourceNodes := Candidates(State(t.Value(), dict), patchNode, parentSource, select);
    }
    match action {
      case Merge | MergeAll | Create =>
        dict', error := MergeFound(t, dict, patchNode, parentSource, action == NA.Create,
                                   action == NA.MergeAll, foundSourceNodes, select);
      case Remove | RemoveAll =>
        error := RemoveCandidates(t, dict, parentSource, foundSourceNodes, action == NA.RemoveAll);
        dict' := dict;
    }
  }

  /** The Merge, MergeAll and Create branch: a counterpart is crafted for Create or
      when nothing was found, and the found or crafted nodes are merged. */
  method MergeFound(t: XT.XmlTree, dict: map<PId, NodeId>, patchNode: PNode, parentSource: NodeId,
                    create: bool, all: bool, found: seq<NodeId>, select: Selector)
    returns (dict': map<PId, NodeId>, error: Option<PatchError>)
    requires Inv(State(t.Value(), dict)) && SelectorOk(select) && patchNode.PElement?
    requires parentSource in dict.Values && IsContainer(t.Value(), parentSource)
    requires !create ==> found == Candidates(State(t.Value(), dict), patchNode, parentSource, select)
    modifies t
    ensures StepResult(State(t.Value(), dict'), error) ==
      if create then CraftAndMerge(State(old(t.Value()), dict), patchNode, parentSource, select, false)
      else MergeOrCraft(State(old(t.Value()), dict), patchNode, parentSource, select, all)
  {
    ghost var s := State(t.Value(), dict);
    var foundSourceNodes := found;
    var all' := all && !create;
    if create || |foundSourceNodes| == 0 {
      var crafted := CraftSourceNode(t, patchNode, parentSource, select);
      if crafted.Skipped? {
        return dict, None;
      }
      if crafted.Failed? {
        return dict, Some(crafted.error);
      }
      InvGrows(s, crafted.doc);
      foundSourceNodes := [crafted.node];
    }
    dict', error := MergeCandidates(t, dict, patchNode, foundSourceNodes, all');
  }

  /** Patch(sourceRoot, patchRoot): walks every element of the patch document and
      returns the error the walk stops with, if any; the document is left as it is
      at that point. */
  method Patch(t: XT.XmlTree, sourceRoot: NodeId, patch: PatchDoc, patchRoot: PId, select: Selector)
    returns (error: Option<PatchError>)
    requires t.Valid() && IsContainer(t.Value(), sourceRoot) && patch.root.PElement? && SelectorOk(select)
    modifies t
    ensures var r := PatchRun(old(t.Value()), sourceRoot, patch, patchRoot, select);
      t.Value() == r.state.doc && error == r.error
  {
    var dict: map<PId, NodeId> := map[patchRoot := sourceRoot];
    var patchNodes := GetAllNodes(patch);
    AllNodesListing(patch, patch.root);
    ghost var init := State(t.Value(), dict);
    var i := 0;
    while i < |patchNodes|
      invariant 0 <= i <= |patchNodes|
      invariant Inv(State(t.Value(), dict))
      invariant Run(init, patchNodes, select) == Run(State(t.Value(), dict), patchNodes[i..], select)
      decreases |patchNodes| - i
    {
      var patchNode := patchNodes[i];
      assert patchNodes[i..][0] == patchNode && patchNodes[i..][1..] == patchNodes[i + 1..];
      var err;
      dict, err := PatchNode(t, dict, patchNode, select);
      if err.Some? {
        return err;
      }
      i := i + 1;
    }
    return None;
  }

  /** Patch(XmlDocument, XmlDocument): the patch document is mapped to the source
      document node. */
  method PatchDocument(t: XT.XmlTree, patch: PatchDoc, select: Selector) returns (error: Option<PatchError>)
    requires t.Valid() && patch.root.PElement? && SelectorOk(select)
    modifies t
    ensures var r := PatchRun(old(t.Value()), t.root, patch, patch.id, select);
      t.Value() == r.state.doc && error == r.error
  {
    error := Patch(t, t.root, patch, patch.id, select);
  }
}
