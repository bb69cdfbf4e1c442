# XmlPatch merge engine in Dafny

This project models the core of XmlPatch, a library that merges a *patch* XML
document into a *source* XML document in place. The patch looks like the source: it
has the same element names, plus directives in its own namespace.
`http://schemas.xmlpatch` carries the `action`, `find` and `create` attributes.
`…/mod/node/<action>` is a namespace that names an action.
`…/mod/attr/key` marks the key attribute.

The engine works like this:

- It walks every element of the patch document in document order (pre-order).
- It keeps a dictionary from patch nodes to their counterparts in the source.
- For each patch element, it looks up the parent's counterpart and resolves the
  element's action: Merge, Create, Remove, MergeAll or RemoveAll, matched ignoring
  case.
- It evaluates the match expression under that counterpart. Nodes that are already
  counterparts are filtered out.
- It then merges attributes and text into the candidates and registers them, crafts
  a new element at a position the `create` directive gives, or detaches the
  candidates.

The Dafny modules follow the source's structure:

| module | file | models |
|---|---|---|
| `Util` | util.dfy | Option, and the .NET string operations the engine relies on: ordinal `StartsWith`, `Replace`, `TrimStart`, `Split(sep, 2)`, case-insensitive equality |
| `NodeActions`, `CraftModes` | node_action.dfy, craft_mode.dfy | the two enums and `Enum.TryParse(…, ignoreCase: true)` on them |
| `PatchDocuments` | patch_document.dfy | the patch document as an immutable tree with node identities; GetAllNodes / GetAllChildNodes as loops |
| `SourceTrees` | source_tree.dfy | the source document as an arena of nodes with parent links; the DOM primitives as functions on it |
| `XmlTrees` | xml_tree.dfy | the mutable source document (`XmlDocument`): a class whose methods are the DOM primitives, each tied to its function |
| `Errors` | errors.dfy | the exceptions the engine can raise, as values |
| `Scheme` | scheme.dfy | the scheme constants, TryGetAttributeValue, TryGetModAttribute, GetNodeXName, the match expression and action resolution |
| `Selectors` | selectors.dfy | XPath evaluation as a parameter, and a concrete child-element selector for default match expressions |
| `Merging` | merge.dfy | MergeNodes |
| `Crafting` | craft.dfy | CraftSourceNode |
| `Engine` | engine.dfy | `Patch(XmlNode, XmlNode)` and `Patch(XmlDocument, XmlDocument)`: the walk as functions over a state, and as methods on the mutable document |
| `Scenarios` | scenarios.dfy | one of the project's test scenarios, computed end to end |

Each state-changing method is proved equal to a specification function of the old
state: `t.Value() == F(old(t.Value()), …)`. The lemmas then state the source's
promises about those functions.

The walk keeps one invariant, `Engine.Inv`:

- the document stays well-formed;
- every counterpart can take children;
- no source node is the counterpart of two patch nodes.

A Create element always gets a freshly crafted counterpart, since a Create step
evaluates no match expression.

Where the code and its documentation differ, the model follows the code:

- Once a patch node is registered, MergeAll's second candidate is merged and then
  fails on `Dictionary.Add`. So MergeAll succeeds only with at most one candidate,
  found or crafted.
- Crafting with a document node as the reference always fails, since a document has
  no owner document to create the element with. So a patch document element that
  has no `create` directive and matches nothing in the source stops the
  document-level patch.
- A `create` directive's reference expression is evaluated before its mode is
  parsed. An unknown mode with an unresolved reference is therefore skipped, not
  reported.

## Model

| member | source | states |
|---|---|---|
| NodeActions.Parse | XmlPatch/NodeAction.cs:6-32 | a value parses to an action exactly when it equals that action's name ignoring case, and to nothing exactly when it names no action |
| NodeActions.NamesDistinct | XmlPatch/NodeAction.cs:6-32 | no value equals two different action names ignoring case |
| NodeActions.ClosedSet | XmlPatch/NodeAction.cs:6-32 | there are exactly five actions, each listed once, and any letter-case spelling of a name parses to its action |
| CraftModes.Parse | XmlPatch/CraftMode.cs:6-22 | a value parses to a mode exactly when it equals the mode's name ignoring case, and to nothing otherwise |
| CraftModes.NamesDistinct | XmlPatch/CraftMode.cs:6-22 | no value equals two different mode names ignoring case |
| CraftModes.ClosedSet | XmlPatch/CraftMode.cs:6-22 | there are exactly three modes, each listed once, and any letter-case spelling of a name parses to its mode |
| CraftModes.NoSeparatorInName | XmlPatch/XmlPatch.cs:365-373 | no spelling of a mode contains `>`, so `mode>xpath` splits right after the mode |
| Util.ReplaceAll | XmlPatch/XmlPatch.cs:144 | deleting a pattern never lengthens the string |
| Util.TrimStart | XmlPatch/XmlPatch.cs:144 | the result is a suffix of the input, everything dropped is the trimmed character, and the result does not start with it |
| Util.SplitFirst | XmlPatch/XmlPatch.cs:365 | no result exactly when the separator is absent; otherwise head + separator + tail is the input, and the head has no separator |
| Util.SplitFirstJoin | XmlPatch/XmlPatch.cs:365 | splitting `a + sep + b` gives back `a` and `b` when `a` has no separator |
| Util.TrimmedRemainder | XmlPatch/XmlPatch.cs:143-144 | deleting the node-action namespace from `ns + "/" + v` and trimming slashes leaves `v` |
| PatchDocuments.GetAllChildNodes | XmlPatch/XmlPatch.cs:235-247 | the loop's list equals the pre-order descendant listing of the node |
| PatchDocuments.GetAllNodes | XmlPatch/XmlPatch.cs:223-228 | the loop's list equals the pre-order listing of the document's elements, each with its parent |
| PatchDocuments.DescendantsAreElementChildren | XmlPatch/XmlPatch.cs:238-243 | every listed visit is an element, and its recorded parent really has it as a child |
| PatchDocuments.ListedOncePerOccurrence | XmlPatch/XmlPatch.cs:235-247 | each element is listed as many times as it occurs in the tree, so once when identities are distinct |
| PatchDocuments.AllNodesListing | XmlPatch/XmlPatch.cs:223-247 | the listing starts with the document element under the document node, and every entry is an element listed with its parent |
| PatchDocuments.SampleDocumentListsSixElements | XmlPatch.Tests/UnitTest1.cs:13-28 | the test document's listing has six elements |
| SourceTrees.CreateElement | XmlPatch/XmlPatch.cs:390-392 | adds exactly one new detached element with the name, no attributes and no children; the document stays well-formed |
| SourceTrees.InsertChildAt | XmlPatch/XmlPatch.cs:402-411 | the child lands at the index in the parent's children, gets that parent, and nothing else changes |
| SourceTrees.RemoveChild | XmlPatch/XmlPatch.cs:206 | the child leaves the parent's children, keeps its subtree but loses its parent, and nothing else changes |
| SourceTrees.WithAttrs | XmlPatch/XmlPatch.cs:316-339 | only the node's attribute map is replaced |
| SourceTrees.SetAttribute | XmlPatch/XmlPatch.cs:326-338 | only the one attribute of the one node is written |
| SourceTrees.ReplaceContent | XmlPatch/XmlPatch.cs:345-346 | the node's children become one new text node with the content; the old children are detached |
| SourceTrees.ExceptAllTwice | XmlPatch/XmlPatch.cs:204-208 | dropping two lists of children in turn is dropping their concatenation |
| XmlTrees.XmlTree.constructor | XmlPatch/XmlPatch.cs:115-118 | the mutable document holds the given well-formed document |
| XmlTrees.XmlTree.CreateElement | XmlPatch/XmlPatch.cs:392 | the new state is CreateElement of the old one, and the new node's identity is returned |
| XmlTrees.XmlTree.AppendChild | XmlPatch/XmlPatch.cs:411 | the new state is AppendChild of the old one |
| XmlTrees.XmlTree.InsertAfter | XmlPatch/XmlPatch.cs:404 | the new state is InsertAfter of the old one |
| XmlTrees.XmlTree.InsertBefore | XmlPatch/XmlPatch.cs:406 | the new state is InsertBefore of the old one |
| XmlTrees.XmlTree.RemoveChild | XmlPatch/XmlPatch.cs:206 | the new state is RemoveChild of the old one |
| XmlTrees.XmlTree.SetAttribute | XmlPatch/XmlPatch.cs:336 | the new state is SetAttribute of the old one |
| XmlTrees.XmlTree.ReplaceContent | XmlPatch/XmlPatch.cs:346 | the new state is ReplaceContent of the old one |
| Scheme.FirstWhere | XmlPatch/XmlPatch.cs:282-286 | the index of the first attribute that satisfies the test, and none exactly when no attribute does |
| Scheme.TryGetAttributeValue | XmlPatch/XmlPatch.cs:277-287 | the value of the first attribute with that local name and namespace; none for a node without attributes or without such an attribute |
| Scheme.TryGetModAttribute | XmlPatch/XmlPatch.cs:296-303 | the first attribute whose namespace is exactly the given one; none exactly when there is no such attribute |
| Scheme.MatchExpression | XmlPatch/XmlPatch.cs:165 | the `find` directive when present; otherwise the base name (the local name under the mod namespace, the qualified name elsewhere) alone when no attribute is in the key namespace, and followed by `[@k = 'v']` for the first key attribute when one is (GetNodeXName, XmlPatch.cs:255-268) |
| Scheme.FirstKeyIsModAttribute | XmlPatch/XmlPatch.cs:296-303 | the first attribute in the key namespace is the one TryGetModAttribute returns |
| Scheme.ResolveAction | XmlPatch/XmlPatch.cs:142-160 | Merge without a directive; with one, exactly the action whose name it equals ignoring case; otherwise an InvalidAction error carrying the directive |
| Scheme.ExplicitActionWins | XmlPatch/XmlPatch.cs:142 | an `action` attribute in the scheme namespace decides, whatever the element's namespace |
| Scheme.ActionFromNamespace | XmlPatch/XmlPatch.cs:143-151 | without the attribute, namespace `…/mod/node/<name>` gives action `<name>` in any letter case |
| Scheme.DirectiveNameShape | XmlPatch/XmlPatch.cs:151 | a value naming an action is 1 to 9 characters long and does not start with a slash |
| Scheme.NoDirectiveMeansMerge | XmlPatch/XmlPatch.cs:147-150 | no attribute and a namespace outside `…/mod/node` means Merge |
| Scheme.UnknownActionFails | XmlPatch/XmlPatch.cs:151-160 | a directive that names no action is an error carrying the directive |
| Selectors.SelectSingle | XmlPatch/XmlPatch.cs:369 | the first result of the expression, and none exactly when it selects nothing |
| Selectors.ChildFilter | XmlPatch/XmlPatch.cs:167 | a node is in the result exactly when it is one of the children, exists and passes the name and key test |
| Selectors.ChildElementSelectorOk | XmlPatch/XmlPatch.cs:167 | the concrete selector returns only elements or the context node, as the engine requires of XPath |
| Selectors.ParseKeyPredicate | XmlPatch/XmlPatch.cs:262-265 | the predicate GetNodeXName writes parses back to its key and value |
| Selectors.DefaultMatchSelects | XmlPatch/XmlPatch.cs:165-167 | the default match expression selects exactly the same-name children, with the key value when there is a key attribute |
| Merging.MergedIsOverlay | XmlPatch/XmlPatch.cs:316-339 | the attribute loop overrides the source attributes with what the non-reserved patch attributes write |
| Merging.OverlayKeys | XmlPatch/XmlPatch.cs:318-336 | the loop writes exactly the target keys of the attributes that are neither directives nor scheme declarations |
| Merging.LastWriteWins | XmlPatch/XmlPatch.cs:336 | a key ends with the value of the last attribute that targets it |
| Merging.UntouchedAttributes | XmlPatch/XmlPatch.cs:316-339 | a source attribute that nothing targets keeps its value, and no key appears from nowhere |
| Merging.MergeAttrsIdempotent | XmlPatch/XmlPatch.cs:316-339 | running the attribute loop twice gives what running it once gives |
| Merging.MergeSpec | XmlPatch/XmlPatch.cs:310-347 | merging keeps the document well-formed and only grows it |
| Merging.MergeEffect | XmlPatch/XmlPatch.cs:310-347 | the target's attributes are the source ones plus the overlay; its name and parent stay; its content becomes the patch's single text child when it has one, a new node and the only one added, and is unchanged otherwise; the target's former children only lose their parent when the content is replaced and are unchanged otherwise; every other node is unchanged |
| Merging.MergeIdempotent | XmlPatch/XmlPatch.cs:310-347 | merging twice leaves the same attributes and content as merging once |
| Merging.MergeDirectivesOnlyIsIdentity | XmlPatch/XmlPatch.cs:316-346 | a patch element with only directive attributes and no single text child leaves the document unchanged |
| Merging.MergeNodes | XmlPatch/XmlPatch.cs:310-347 | the attribute loop and the content rule on the mutable document compute MergeSpec |
| Crafting.Place | XmlPatch/XmlPatch.cs:390-418 | a successful placement yields a well-formed, grown document whose one new element is the next fresh node; a document-node reference never succeeds (PlaceEffect) |
| Crafting.PlaceEffect | XmlPatch/XmlPatch.cs:390-418 | a document node as the reference fails in every mode, as it has no owner document (392); otherwise After inserts at the reference's index plus one in its parent, Before at that index, Append as the reference's last child; After and Before without a parent fail, and so does After or Before that would give a document node a second element; the new element has the name, no attributes and no children, and no other node changes |
| Crafting.PlaceNextToReference | XmlPatch/XmlPatch.cs:399-406 | next to an element with a parent, After makes the reference directly precede the new element, and Before makes it directly follow it |
| Crafting.CraftSpec | XmlPatch/XmlPatch.cs:355-419 | a crafted element is a fresh element of a well-formed, grown document; the reference it is placed by is never a document node, since Place fails there |
| Crafting.CraftByDirective | XmlPatch/XmlPatch.cs:359-382 | same, for the `create` directive path: a reference that resolves to the document node (e.g. `append>/` under the document entry) goes to Place and fails there |
| Crafting.NoDirectiveAppends | XmlPatch/XmlPatch.cs:384-388 | without a directive the crafting is Place by Append under the parent's counterpart, so it fails when that counterpart is the document node |
| Crafting.MissingSeparatorFails | XmlPatch/XmlPatch.cs:359-363 | a directive without `>` is an error |
| Crafting.UnresolvedReferenceSkips | XmlPatch/XmlPatch.cs:365-371 | a reference that finds nothing means no element and no change, whatever the mode text |
| Crafting.ResolvedReferencePlaces | XmlPatch/XmlPatch.cs:369-382 | with the reference found, an unknown mode is an error, and a known mode in any case places the element by that mode next to the first result |
| Crafting.AppendDotIsDefault | XmlPatch/XmlPatch.cs:373-388 | `append>.` does what no directive does |
| Crafting.CraftSourceNode | XmlPatch/XmlPatch.cs:355-419 | the method returns CraftSpec of the old document, failing on a document-node reference before any mode check; a crafted result's document is the new state; otherwise the document is unchanged |
| Engine.Unclaimed | XmlPatch/XmlPatch.cs:170 | a node is kept exactly when it was found and is no counterpart yet, and the first kept is the first unclaimed node found |
| Engine.Candidates | XmlPatch/XmlPatch.cs:165-170 | a node is a candidate exactly when the match expression selects it under the parent's counterpart and it is no counterpart yet; candidates are elements; the first candidate is the first selected node that is unclaimed |
| Engine.MergeEach | XmlPatch/XmlPatch.cs:192-198 | the merge loop keeps the invariant and only grows the document |
| Engine.RemoveEach | XmlPatch/XmlPatch.cs:204-209 | the remove loop keeps the invariant and the dictionary |
| Engine.CraftAndMerge | XmlPatch/XmlPatch.cs:183-190 | crafting then merging keeps the invariant |
| Engine.Step | XmlPatch/XmlPatch.cs:138-214 | one turn of the walk keeps the invariant: well-formed document, container counterparts, no node claimed twice |
| Engine.Act | XmlPatch/XmlPatch.cs:162-213 | each action keeps the invariant |
| Engine.MergeOrCraft | XmlPatch/XmlPatch.cs:179-199 | Merge and MergeAll keep the invariant |
| Engine.Run | XmlPatch/XmlPatch.cs:136-215 | the whole walk keeps the invariant, so no source node ever has two patch counterparts |
| Engine.PatchRun | XmlPatch/XmlPatch.cs:133-136 | from the one-entry dictionary, the walk over all patch elements keeps the invariant |
| Engine.MissingParentFails | XmlPatch/XmlPatch.cs:139-140 | a patch element whose parent was never registered stops the run with no change |
| Engine.StepRegistersUnclaimed | XmlPatch/XmlPatch.cs:170-195 | existing entries stay; the only new entry maps the visited element to a node that was unclaimed |
| Engine.MergeEachAfterRegistration | XmlPatch/XmlPatch.cs:195 | once the patch node is a key, the merge loop adds no entry |
| Engine.MergeRegistersFirst | XmlPatch/XmlPatch.cs:192-198 | Merge merges and registers the first candidate only |
| Engine.MergeAllSecondCandidateFails | XmlPatch/XmlPatch.cs:192-197 | MergeAll with two or more candidates merges the first two, registers the first, and fails on registering the second |
| Engine.MergeAllSingleCandidate | XmlPatch/XmlPatch.cs:192-198 | MergeAll with one candidate merges and registers it |
| Engine.NoCandidateCrafts | XmlPatch/XmlPatch.cs:183 | Merge or MergeAll with no unclaimed candidate crafts a counterpart |
| Engine.CreateIgnoresMatches | XmlPatch/XmlPatch.cs:163-189 | Create merges and registers a freshly crafted element, never an existing match |
| Engine.CraftUnderDocumentFails | XmlPatch/XmlPatch.cs:390-392 | an element without a `create` directive that must be crafted under a document node (Create, or Merge/MergeAll with no candidate) stops the run with no change |
| Engine.SkippedLeavesNoTrace | XmlPatch/XmlPatch.cs:185-187 | an element with no craft reference is skipped with no change and no entry |
| Engine.RemoveRegistersNothing | XmlPatch/XmlPatch.cs:201-210 | Remove and RemoveAll never register the patch node |
| Engine.RemoveFirstOnly | XmlPatch/XmlPatch.cs:204-208 | Remove detaches only the first candidate when it is a child of the parent's counterpart, and fails with no change otherwise |
| Engine.RemoveAllDetachesExactly | XmlPatch/XmlPatch.cs:204-209 | RemoveAll detaches exactly the candidates: the parent keeps its other children in order, and no other node changes |
| Engine.RemoveEachEffect | XmlPatch/XmlPatch.cs:204-209 | the remove loop over distinct children detaches exactly them, without error |
| Engine.EntriesStay | XmlPatch/XmlPatch.cs:136-215 | an entry, once made, is never changed or dropped for the rest of the walk |
| Engine.StepKeepsEntries | XmlPatch/XmlPatch.cs:138-214 | one turn keeps every existing entry |
| Engine.ChildOfUnregisteredFails | XmlPatch/XmlPatch.cs:139-140 | an element whose parent was skipped stops the walk right there |
| Engine.ElementPatchRootFails | XmlPatch/XmlPatch.cs:133-140 | an element given as the patch root fails at the first step, because the walk starts from the document element under the document node |
| Engine.DocumentEntryStartsAtRoot | XmlPatch/XmlPatch.cs:115-118 | the document entry maps the patch document to the source document, and its first step handles the document element under that entry |
| Engine.MergeCandidates | XmlPatch/XmlPatch.cs:192-198 | the loop on the mutable document computes MergeEach |
| Engine.RemoveCandidates | XmlPatch/XmlPatch.cs:204-209 | the loop on the mutable document computes RemoveEach |
| Engine.PatchNode | XmlPatch/XmlPatch.cs:138-214 | one loop body on the mutable document computes Step |
| Engine.ApplyAction | XmlPatch/XmlPatch.cs:162-213 | the candidate search and the switch compute Act |
| Engine.MergeFound | XmlPatch/XmlPatch.cs:179-199 | the merge branch computes CraftAndMerge for Create and MergeOrCraft otherwise |
| Engine.Patch | XmlPatch/XmlPatch.cs:125-216 | the method's final document and error are the ones PatchRun gives |
| Engine.PatchDocument | XmlPatch/XmlPatch.cs:115-118 | the document entry is Patch from the document node with the patch document as root |
| Scenarios.TwoSiblingsOneReuseOneCreation | XmlPatch.Tests/UnitTest1.cs:125-158 | with one existing `newnode` and two patch siblings of that name, the first reuses it and the second gets a new element appended after it |

## Left out

- The file-path overloads of Patch (XmlPatch.cs:78-108) are left out: file I/O, plus
  loading and saving documents.
- The null-argument checks (XmlPatch.cs:127-131) are left out: model values are
  never null.
- XPath evaluation is a parameter `select`. The engine assumes only that results are
  elements or the context node; it assumes nothing about their order or about
  duplicates, which XPath node sets do not have. That is why
  `RemoveAllDetachesExactly` requires distinct candidates. `ChildElementSelector` is
  a concrete instance that understands `.`, `name` and `name[@k = 'v']`, which is
  enough for default match expressions.
- The `select` parameter is total, so the model has no error for an expression
  XPath rejects. In the source, `SelectNodes` (XmlPatch.cs:167) and
  `SelectSingleNode` (XmlPatch.cs:369) throw on such an expression. Examples are the
  empty reference of `create="after>"`, or the `prefix:local` name GetNodeXName
  builds for a prefixed element outside the mod namespace when there is no namespace
  manager.
- MergeNodes' `InnerXml` assignment is modelled for the case the engine uses: a
  single text child is carried over as one text node. Markup inside it is not
  parsed.
- The value assignment of XmlPatch.cs:342 never takes effect on an element (its
  `Value` is null) and is absent.
- Exception messages are left out. Errors are values that carry the offending
  directive or node.
- `Debug.Assert` calls are read in their release-build meaning, i.e. removed. In a
  debug build the assertion at XmlPatch.cs:182 would fail for every Create element,
  since `foundSourceNodes` is null there. The assertion at XmlPatch.cs:391 would
  fail for a document-node reference, before the null dereference at 392 that the
  model reports as `NoOwnerDocument`. Neither assertion is modelled.
- Letter-case folding is ASCII only. `Enum.TryParse` also accepts numeric strings,
  comma-separated flag lists and surrounding white space; these are not modelled.
- `StartsWith` is culture-sensitive in .NET. At XmlPatch.cs:143, 257, 321 and 324 it
  is modelled as an ordinal prefix test.
- Namespace prefixes are not resolved. Source attributes are keyed by their
  qualified name, and a source element's name is a string.
- `CreateElement` does not check that a name is a valid XML name.
- Crafting.CraftSourceNode: the source creates the new element before it knows
  whether it can be placed. The model checks first and creates only when placement
  succeeds. The document reached is the same either way, since the source's
  unplaced element never becomes part of the tree; only the value of the next fresh
  identity differs.
- A crafted element placed After or Before the document element would give the
  document node a second element. This is the error `DocumentElementExists`,
  standing for the exception `XmlDocument` throws. Append never reaches that check,
  because a document-node reference already fails at XmlPatch.cs:392
  (`NoOwnerDocument`).
- Patch node identities are assumed distinct, as node objects are. The walk lists
  each element once per occurrence (`ListedOncePerOccurrence`).
- Concurrency is left out: the library has none of its own.
