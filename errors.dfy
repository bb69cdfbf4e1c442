/** The ways a patch run stops early: each is an exception XmlPatch.cs lets escape
    (XmlException, KeyNotFoundException, ArgumentException, InvalidOperationException,
    NullReferenceException). */
module Errors {
  import PatchDocuments
  import SourceTrees

  datatype PatchError =
      /** `dict[patchNode.ParentNode]`: the patch parent was never registered. */
    | MissingParent(parent: PatchDocuments.PId)
      /** The action directive names no NodeAction member. */
    | InvalidAction(value: string)
      /** A `create` directive without the `>` separator. */
    | MissingSeparator(value: string)
      /** The part of a `create` directive before `>` names no CraftMode member. */
    | InvalidCraftMode(value: string)
      /** The reference is a document node, whose OwnerDocument is null, so the new
          element cannot be created through it. */
    | NoOwnerDocument(reference: SourceTrees.NodeId)
      /** After or Before relative to a node that has no parent. */
    | NoParentToPosition(reference: SourceTrees.NodeId)
      /** An element put under a document node that already has its document element. */
    | DocumentElementExists(document: SourceTrees.NodeId)
      /** `dict.Add` with a patch node that is already a key. */
    | DuplicateKey(key: PatchDocuments.PId)
      /** RemoveChild of a node that is not a child of the parent's counterpart. */
    | NotAChild(node: SourceTrees.NodeId)

  datatype Result<T> = Ok(value: T) | Err(error: PatchError)
}
