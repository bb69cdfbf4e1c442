/** A worked run of the engine with the child-element selector: the already-merged
    nodes scenario of the project's tests, reduced to one existing `newnode` and two
    patch siblings of that name. */
module Scenarios {
  import opened Util
  import opened SourceTrees
  import opened PatchDocuments
  import opened Scheme
  import opened Selectors
  import opened Merging
  import opened Crafting
  import opened Engine
  import opened Errors
  import NA = NodeActions
  import CM = CraftModes

  /** An element name without prefix or namespace. */
  function Plain(l: string): QName { QName("", l, "") }

  /** `<root><newnode/></root>` as a source document: the document node 0, the
      document element 1 and its child 2. */
  function Source(): Doc
  {
    Doc(0, map[
      0 := SrcNode(DocumentNode, map[], [1], None),
      1 := SrcNode(ElementNode("root"), map[], [2], Some(0)),
      2 := SrcNode(ElementNode("newnode"), map[], [], Some(1))], 3)
  }

  function Root(): PNode { PElement(11, Plain("root"), [], [First(), Second()]) }
  function First(): PNode { PElement(12, Plain("newnode"), [], []) }
  function Second(): PNode { PElement(13, Plain("newnode"), [], []) }

  /** `<root><newnode/><newnode/></root>` as a patch document. */
  function TwoSiblings(): PatchDoc { PatchDoc(10, Root()) }

  /** The source document after the run: a second `newnode`, node 3, after the first. */
  function Expected(): Doc
  {
    Doc(0, map[
      0 := SrcNode(DocumentNode, map[], [1], None),
      1 := SrcNode(ElementNode("root"), map[], [2, 3], Some(0)),
      2 := SrcNode(ElementNode("newnode"), map[], [], Some(1)),
      3 := SrcNode(ElementNode("newnode"), map[], [], Some(1))], 4)
  }

  lemma SourceValid()
    ensures Valid(Source())
  {
    var d := Source();
    forall n | n in d.nodes ensures NodeOk(d, n) {
      assert n == 0 || n == 1 || n == 2;
    }
  }

  lemma Listing()
    ensures AllNodes(TwoSiblings()) == [Visit(10, Root()), Visit(11, First()), Visit(11, Second())]
  {
    assert Descendants(First()) == [] && Descendants(Second()) == [];
    assert ChildContributions(Root()) == [ChildVisits(11, First()), ChildVisits(11, Second())];
    assert ChildVisits(11, First()) == [Visit(11, First())];
    assert ChildVisits(11, Second()) == [Visit(11, Second())];
    assert Flatten(ChildContributions(Root())) == Flatten([[Visit(11, First())]]) + [Visit(11, Second())];
  }

  /** A plain element without attributes: Merge, matched and crafted by its name. */
  lemma PlainElement(p: PNode, l: string)
    requires p.PElement? && p.attrs == [] && p.name == Plain(l) && '[' !in l && l != "."
    ensures ResolveAction(p) == Ok(NA.Merge)
    ensures MatchExpression(p) == l && GetNodeXName(p, false) == l && CreateDirective(p).None?
    ensures forall d: Doc, n :: n in d.nodes ==>
      ChildElementSelector(d, n, MatchExpression(p)) == ChildFilter(d, d.nodes[n].children, NameTest(l, None))
  {
    assert |NodeActionSchemeNamespace| > 0 && |BaseModSchemeNamespace| > 0;
    NoDirectiveMeansMerge(p);
    assert SplitFirst(l, '[').None?;
  }

  function S0(): State { State(Source(), map[10 := 0]) }
  function S1(): State { State(Source(), map[10 := 0, 11 := 1]) }
  function S2(): State { State(Source(), map[10 := 0, 11 := 1, 12 := 2]) }
  function S3(): State { State(Expected(), map[10 := 0, 11 := 1, 12 := 2, 13 := 3]) }

  lemma S0Inv()
    ensures Inv(S0()) && Inv(S1()) && Inv(S2())
  {
    SourceValid();
  }

  lemma SelectRoot()
    ensures ChildElementSelector(Source(), 0, MatchExpression(Root())) == [1]
  {
    PlainElement(Root(), "root");
    assert ChildFilter(Source(), [1], NameTest("root", None)) == [1];
  }

  lemma SelectNewnode(p: PNode)
    requires p == First() || p == Second()
    ensures ChildElementSelector(Source(), 1, MatchExpression(p)) == [2]
  {
    PlainElement(p, "newnode");
    assert ChildFilter(Source(), [2], NameTest("newnode", None)) == [2];
  }

  /** What the engine needs of each state, in one place. */
  lemma Ready()
    ensures Inv(S0()) && Inv(S1()) && Inv(S2()) && SelectorOk(ChildElementSelector)
    ensures 0 in S0().dict.Values && 1 in S1().dict.Values && 1 in S2().dict.Values
    ensures IsContainer(Source(), 0) && IsContainer(Source(), 1)
  {
    S0Inv();
    ChildElementSelectorOk();
    assert S0().dict[10] == 0 && S1().dict[11] == 1 && S2().dict[11] == 1;
  }

  lemma CandidatesOfRoot()
    ensures Inv(S0()) && SelectorOk(ChildElementSelector) && 0 in S0().dict.Values && IsContainer(Source(), 0)
    ensures Candidates(S0(), Root(), 0, ChildElementSelector) == [1]
  {
    Ready();
    SelectRoot();
    assert Unclaimed([1], S0().dict) == [1];
  }

  lemma CandidatesOfFirst()
    ensures Inv(S1()) && SelectorOk(ChildElementSelector) && 1 in S1().dict.Values && IsContainer(Source(), 1)
    ensures Candidates(S1(), First(), 1, ChildElementSelector) == [2]
  {
    Ready();
    SelectNewnode(First());
    assert Unclaimed([2], S1().dict) == [2];
  }

  /** The existing `newnode` is claimed by the time the second sibling looks. */
  lemma CandidatesOfSecond()
    ensures Inv(S2()) && SelectorOk(ChildElementSelector) && 1 in S2().dict.Values && IsContainer(Source(), 1)
    ensures Candidates(S2(), Second(), 1, ChildElementSelector) == []
  {
    Ready();
    SelectNewnode(Second());
    assert S2().dict[12] == 2;
    assert Unclaimed([2], S2().dict) == [];
  }

  /** The patch's document element merges into the source's. */
  lemma FirstStep()
    ensures Inv(S0()) && SelectorOk(ChildElementSelector)
    ensures Step(S0(), Visit(10, Root()), ChildElementSelector) == StepResult(S1(), None)
  {
    CandidatesOfRoot();
    PlainElement(Root(), "root");
    MergeRegistersFirst(S0(), Visit(10, Root()), ChildElementSelector);
    MergeDirectivesOnlyIsIdentity(Source(), 1, Root());
    assert S0().dict[11 := 1] == S1().dict;
  }

  /** The first `newnode` reuses the existing one. */
  lemma SecondStep()
    ensures Inv(S1()) && SelectorOk(ChildElementSelector)
    ensures Step(S1(), Visit(11, First()), ChildElementSelector) == StepResult(S2(), None)
  {
    CandidatesOfFirst();
    PlainElement(First(), "newnode");
    MergeRegistersFirst(S1(), Visit(11, First()), ChildElementSelector);
    MergeDirectivesOnlyIsIdentity(Source(), 2, First());
    assert S1().dict[12 := 2] == S2().dict;
  }

  /** The source with the new `newnode`, node 3, created but not yet placed. */
  function Detached(): Doc
  {
    Doc(0, Source().nodes[3 := SrcNode(ElementNode("newnode"), map[], [], None)], 4)
  }

  lemma CreateNewnode()
    ensures Valid(Source()) && CreateElement(Source(), "newnode") == Detached()
  {
    SourceValid();
  }

  lemma AppendNewnode()
    ensures Valid(Detached()) && IsContainer(Detached(), 1)
    ensures AppendChild(Detached(), 1, 3) == Expected()
  {
    CreateNewnode();
    var d1 := Detached();
    var r := AppendChild(d1, 1, 3);
    assert d1.nodes[1].children == [2];
    assert [2][..1] + [3] + [2][1..] == [2, 3];
    assert r.nodes[1] == Expected().nodes[1];
    assert r.nodes[3] == Expected().nodes[3];
    assert r.nodes.Keys == Expected().nodes.Keys;
    assert r.nodes == Expected().nodes;
  }

  /** Crafting for the second sibling appends the new element to the document element. */
  lemma CraftSecond()
    ensures Valid(Source()) && IsContainer(Source(), 1) && SelectorOk(ChildElementSelector)
    ensures CraftSpec(Source(), Second(), 1, ChildElementSelector) == Crafted(Expected(), 3)
  {
    Ready();
    PlainElement(Second(), "newnode");
    NoDirectiveAppends(Source(), Second(), 1, ChildElementSelector);
    PlaceNewnode();
  }

  lemma PlaceNewnode()
    ensures Valid(Source()) && IsContainer(Source(), 1)
    ensures Place(Source(), "newnode", 1, CM.Append) == Crafted(Expected(), 3)
  {
    Ready();
    CreateNewnode();
    AppendNewnode();
    assert !RefusesElementChild(Source(), 1);
  }

  lemma MergeCrafted()
    ensures Inv(State(Expected(), S2().dict)) && IsElement(Expected(), 3)
    ensures MergeEach(State(Expected(), S2().dict), Second(), [3], false) == StepResult(S3(), None)
  {
    Ready();
    CraftSecond();
    InvGrows(S2(), Expected());
    MergeDirectivesOnlyIsIdentity(Expected(), 3, Second());
    assert S2().dict[13 := 3] == S3().dict;
  }

  /** The second `newnode` finds no unclaimed match, so a new one is appended. */
  lemma ThirdStep()
    ensures Inv(S2()) && SelectorOk(ChildElementSelector)
    ensures Step(S2(), Visit(11, Second()), ChildElementSelector) == StepResult(S3(), None)
  {
    CandidatesOfSecond();
    PlainElement(Second(), "newnode");
    NoCandidateCrafts(S2(), Visit(11, Second()), ChildElementSelector);
    CraftSecond();
    MergeCrafted();
    assert CraftAndMerge(S2(), Second(), 1, ChildElementSelector, false) == StepResult(S3(), None);
  }

  lemma RunLast()
    ensures Inv(S2()) && SelectorOk(ChildElementSelector)
    ensures Run(S2(), [Visit(11, Second())], ChildElementSelector) == StepResult(S3(), None)
  {
    ThirdStep();
    var l := [Visit(11, Second())];
    assert l[1..] == [];
  }

  lemma RunLastTwo()
    ensures Inv(S1()) && SelectorOk(ChildElementSelector)
    ensures Run(S1(), [Visit(11, First()), Visit(11, Second())], ChildElementSelector) == StepResult(S3(), None)
  {
    SecondStep();
    RunLast();
    var l := [Visit(11, First()), Visit(11, Second())];
    assert l[1..] == [Visit(11, Second())];
  }

  /** The first `newnode` of the patch reuses the existing one; the second finds it
      claimed and gets a new element appended after it. */
  lemma TwoSiblingsOneReuseOneCreation()
    ensures Valid(Source()) && IsContainer(Source(), 0) && SelectorOk(ChildElementSelector)
    ensures PatchRun(Source(), 0, TwoSiblings(), 10, ChildElementSelector) == StepResult(S3(), None)
  {
    Ready();
    RunAll();
    Listing();
  }

  lemma RunAll()
    ensures Inv(S0()) && SelectorOk(ChildElementSelector)
    ensures Run(S0(), [Visit(10, Root()), Visit(11, First()), Visit(11, Second())], ChildElementSelector) ==
      StepResult(S3(), None)
  {
    FirstStep();
    RunLastTwo();
    var l := [Visit(10, Root()), Visit(11, First()), Visit(11, Second())];
    assert l[1..] == [Visit(11, First()), Visit(11, Second())];
  }
}
