/** The two access predicates of the core: CollaborationService.canUserEdit
    (used on the live edit path) and the condition DocumentService.checkDocumentAccess
    enforces. Both require an owner: the source dereferences it. */
module Access {
  import opened Model

  /** The owner by id, or the user object itself among the collaborators
      (`Set.contains` on a User that does not override `equals`: identity). */
  predicate CanUserEdit(user: User, document: Document)
    requires document.owner != null
    reads document
    ensures CanUserEdit(user, document) ==> HasAccess(user, document)
  {
    document.owner.id == user.id || user in document.collaborators
  }

  /** The owner by id, or some collaborator with the user's id. */
  predicate HasAccess(user: User, document: Document)
    requires document.owner != null
    reads document
    ensures HasAccess(user, document) <==>
              user.id in {document.owner.id} + (set c | c in document.collaborators :: c.id)
  {
    document.owner.id == user.id || exists c :: c in document.collaborators && c.id == user.id
  }

  /** The two checks differ exactly on a collaborator that is a different User
      object carrying the same id: checkDocumentAccess admits it, canUserEdit does not. */
  lemma AccessVersusCanUserEdit(user: User, document: Document)
    requires document.owner != null
    ensures HasAccess(user, document) <==>
            CanUserEdit(user, document) || exists c :: c in document.collaborators && c != user && c.id == user.id
  {
  }
}
