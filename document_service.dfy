/** service/DocumentService.java: look-up, the access check and the owner-only
    collaborator management. The signed-in user is a parameter. */
module Documents {
  import opened Exceptions
  import opened Model
  import opened Access
  import opened Repositories

  class DocumentService {
    const documentRepository: DocumentRepository
    const userRepository: UserRepository

    constructor (documentRepository: DocumentRepository, userRepository: UserRepository)
      ensures this.documentRepository == documentRepository && this.userRepository == userRepository
    {
      this.documentRepository := documentRepository;
      this.userRepository := userRepository;
    }

    /** The stored document, or DocumentNotFoundException. */
    function FindById(id: int): (r: Result<Document>)
      reads documentRepository
      ensures r.Ok? <==> id in documentRepository.documents
      ensures r.Err? ==> r.error == DocumentNotFound
      ensures r.Ok? ==> r.value in documentRepository.documents.Values
      ensures r.Ok? && documentRepository.Valid() ==> r.value.id == id
    {
      if id in documentRepository.documents then Ok(documentRepository.documents[id]) else Err(DocumentNotFound)
    }

    /** The guard of addCollaborator and removeCollaborator: the document must
        exist, and the caller must be its owner (compared by id). */
    function OwnerGate(documentId: int, currentUser: User): (r: Result<Document>)
      reads documentRepository, documentRepository.documents.Values
      ensures r.Ok? <==> && documentId in documentRepository.documents
                         && documentRepository.documents[documentId].owner != null
                         && documentRepository.documents[documentId].owner.id == currentUser.id
      ensures r.Ok? ==> r.value == documentRepository.documents[documentId]
      ensures documentId !in documentRepository.documents ==> r == Err(DocumentNotFound)
      ensures r.Err? && documentId in documentRepository.documents ==>
                r.error == (if documentRepository.documents[documentId].owner == null then NullPointer else AccessDenied)
    {
      match FindById(documentId)
      case Err(e) => Err(e)
      case Ok(document) =>
        if document.owner == null then Err(NullPointer)
        else if document.owner.id != currentUser.id then Err(AccessDenied)
        else Ok(document)
    }

    /** Scans the collaborators for one with the caller's id, stopping at the
        first; throws unless the caller owns the document or was found. */
    method CheckDocumentAccess(document: Document, currentUser: User) returns (r: Outcome)
      ensures document.owner == null ==> r == Fail(NullPointer)
      ensures document.owner != null ==> (r == Pass <==> HasAccess(currentUser, document))
      ensures document.owner != null && r != Pass ==> r == Fail(AccessDenied)
    {
      if document.owner == null {
        return Fail(NullPointer);
      }
      var isOwner := document.owner.id == currentUser.id;
      var isCollaborator := false;
      var remaining := document.collaborators;
      while remaining != {}
        invariant remaining <= document.collaborators
        invariant !isCollaborator
        invariant forall c :: c in document.collaborators - remaining ==> c.id != currentUser.id
        decreases |remaining|
      {
        var collaborator :| collaborator in remaining;
        if collaborator.id == currentUser.id {
          isCollaborator := true;
          break;
        }
        remaining := remaining - {collaborator};
      }
      assert isCollaborator <==> exists c :: c in document.collaborators && c.id == currentUser.id;
      if !isOwner && !isCollaborator {
        return Fail(AccessDenied);
      }
      return Pass;
    }

    /** Overwrites the content once the access check passes; a missing document or
        a denied caller leaves every document as it was. */
    method UpdateDocument(id: int, content: string, currentUser: User) returns (r: Outcome)
      requires documentRepository.Valid()
      modifies documentRepository, documentRepository.documents.Values`content
      ensures documentRepository.Valid() && documentRepository.documents == old(documentRepository.documents)
      ensures id !in old(documentRepository.documents) ==> r == Fail(DocumentNotFound)
      ensures id in old(documentRepository.documents) ==> var document := old(documentRepository.documents)[id];
                && (document.owner == null ==> r == Fail(NullPointer))
                && (document.owner != null ==> (r == Pass <==> HasAccess(currentUser, document)))
                && (r.Fail? && document.owner != null ==> r == Fail(AccessDenied))
                && (r.Pass? ==> document.content == content)
      ensures forall d | d in old(documentRepository.documents.Values) ::
                d.content == old(d.content) || (r.Pass? && d == old(documentRepository.documents)[id])
    {
      var found := FindById(id);
      if found.Err? {
        return Fail(found.error);
      }
      var document := found.value;
      r := CheckDocumentAccess(document, currentUser);
      if r.Fail? {
        return;
      }
      document.content := content;
      documentRepository.Save(document);
    }

    /** Owner-only; adds the user named `username` unless already present.
        Only the document's side of the link is updated. */
    method AddCollaborator(documentId: int, username: string, currentUser: User) returns (r: Result<bool>)
      requires documentRepository.Valid()
      modifies documentRepository, documentRepository.documents.Values`collaborators
      ensures documentRepository.Valid() && documentRepository.documents == old(documentRepository.documents)
      ensures old(OwnerGate(documentId, currentUser)).Err? ==> r == Err(old(OwnerGate(documentId, currentUser)).error)
      ensures old(OwnerGate(documentId, currentUser)).Ok? && username !in userRepository.byUsername ==>
                r == Err(UserNotFound)
      ensures old(OwnerGate(documentId, currentUser)).Ok? && username in userRepository.byUsername ==>
                var document := old(documentRepository.documents)[documentId];
                var user := userRepository.byUsername[username];
                && r == Ok(user !in old(document.collaborators))
                && document.collaborators == old(document.collaborators) + {user}
      ensures forall d | d in old(documentRepository.documents.Values) ::
                d.collaborators == old(d.collaborators) || (r == Ok(true) && d == old(documentRepository.documents)[documentId])
    {
      var gate := OwnerGate(documentId, currentUser);
      if gate.Err? {
        return Err(gate.error);
      }
      var document := gate.value;
      if username !in userRepository.byUsername {
        return Err(UserNotFound);
      }
      var user := userRepository.byUsername[username];
      if user in document.collaborators {
        return Ok(false);
      }
      document.AddCollaborator(user);
      documentRepository.Save(document);
      return Ok(true);
    }

    /** Owner-only; removes the user with id `userId` if present. */
    method RemoveCollaborator(documentId: int, userId: int, currentUser: User) returns (r: Result<bool>)
      requires documentRepository.Valid()
      modifies documentRepository, documentRepository.documents.Values`collaborators
      ensures documentRepository.Valid() && documentRepository.documents == old(documentRepository.documents)
      ensures old(OwnerGate(documentId, currentUser)).Err? ==> r == Err(old(OwnerGate(documentId, currentUser)).error)
      ensures old(OwnerGate(documentId, currentUser)).Ok? && userId !in userRepository.byId ==>
                r == Err(UserNotFound)
      ensures old(OwnerGate(documentId, currentUser)).Ok? && userId in userRepository.byId ==>
                var document := old(documentRepository.documents)[documentId];
                var user := userRepository.byId[userId];
                && r == Ok(user in old(document.collaborators))
                && document.collaborators == old(document.collaborators) - {user}
      ensures forall d | d in old(documentRepository.documents.Values) ::
                d.collaborators == old(d.collaborators) || (r == Ok(true) && d == old(documentRepository.documents)[documentId])
    {
      var gate := OwnerGate(documentId, currentUser);
      if gate.Err? {
        return Err(gate.error);
      }
      var document := gate.value;
      if userId !in userRepository.byId {
        return Err(UserNotFound);
      }
      var user := userRepository.byId[userId];
      if user in document.collaborators {
        document.RemoveCollaborator(user);
        documentRepository.Save(document);
        return Ok(true);
      }
      return Ok(false);
    }
  }
}
