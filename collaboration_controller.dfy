/** controller/CollaborationController.java: the STOMP handlers. An edit is
    authorized, applied through processEdit, stamped and returned for the topic
    broadcast; a cursor message is only stamped. The principal's name is a parameter. */
module Controller {
  import opened Exceptions
  import opened Model
  import opened Messages
  import opened Observer
  import opened Repositories
  import opened Access
  import opened Collaboration
  import opened Documents

  class CollaborationController {
    const collaborationService: CollaborationService
    const documentService: DocumentService
    /** The repository UserService.findByUsername looks users up in. */
    const userRepository: UserRepository

    /** Both services work on one repository, which keeps documents under their ids. */
    ghost predicate Valid()
      reads documentService.documentRepository
    {
      && collaborationService.documentRepository == documentService.documentRepository
      && documentService.documentRepository.Valid()
    }

    constructor (collaborationService: CollaborationService, documentService: DocumentService, userRepository: UserRepository)
      ensures this.collaborationService == collaborationService
      ensures this.documentService == documentService
      ensures this.userRepository == userRepository
    {
      this.collaborationService := collaborationService;
      this.documentService := documentService;
      this.userRepository := userRepository;
    }

    /** Unknown user, unknown document, a missing owner and a denied edit all fail
        before processEdit runs, so no content changes and nothing is sent. */
    method HandleDocumentEdit(documentId: int, message: DocumentEditMessage, principal: string, transport: Transport)
      returns (r: Result<DocumentEditMessage>)
      requires Valid()
      modifies documentService.documentRepository, documentService.documentRepository.documents.Values`content, transport`sent
      ensures Valid() && documentService.documentRepository.documents == old(documentService.documentRepository.documents)
      ensures principal !in userRepository.byUsername ==> r == Err(UserNotFound)
      ensures principal in userRepository.byUsername && documentId !in documentService.documentRepository.documents ==>
                r == Err(DocumentNotFound)
      ensures principal in userRepository.byUsername && documentId in documentService.documentRepository.documents ==>
                var user := userRepository.byUsername[principal];
                var document := documentService.documentRepository.documents[documentId];
                && (document.owner == null ==> r == Err(NullPointer))
                && (document.owner != null && !old(CanUserEdit(user, document)) ==> r == Err(AccessDenied))
                && (document.owner != null && old(CanUserEdit(user, document)) ==>
                      var edit := old(ApplyEdit(document.content, message));
                      && document.content == edit.GetOr(old(document.content))
                      && (edit.Err? ==> r == Err(edit.error))
                      && (edit.Ok? ==> && r == Ok(Stamped(message, user))
                                       && transport.sent == old(transport.sent) +
                                            Broadcast(collaborationService.observers, Stamped(message, user), transport.open)))
      ensures r.Err? ==> && transport.sent == old(transport.sent)
                         && forall d | d in old(documentService.documentRepository.documents.Values) :: d.content == old(d.content)
      ensures forall d | d in old(documentService.documentRepository.documents.Values) ::
                d.content == old(d.content) || (r.Ok? && d == documentService.documentRepository.documents[documentId])
    {
      if principal !in userRepository.byUsername {
        return Err(UserNotFound);
      }
      var user := userRepository.byUsername[principal];
      var found := documentService.FindById(documentId);
      if found.Err? {
        return Err(found.error);
      }
      var document := found.value;
      if document.owner == null {
        return Err(NullPointer);
      }
      if !CanUserEdit(user, document) {
        return Err(AccessDenied);
      }
      var processed := collaborationService.ProcessEdit(document, user, message, transport);
      if processed.Err? {
        return Err(processed.error);
      }
      r := Ok(processed.value.(userId := Some(user.id), username := Some(user.username)));
    }

    /** Stamps the cursor message with the signed-in user; reads no document. */
    function HandleCursorUpdate(documentId: int, message: CursorPositionMessage, principal: string): (r: Result<CursorPositionMessage>)
      reads userRepository
      ensures r.Ok? <==> principal in userRepository.byUsername
      ensures r.Err? ==> r.error == UserNotFound
      ensures r.Ok? ==> && r.value.userId == Some(userRepository.byUsername[principal].id)
                        && r.value.username == Some(userRepository.byUsername[principal].username)
                        && r.value.position == message.position
    {
      if principal !in userRepository.byUsername then Err(UserNotFound)
      else
        var user := userRepository.byUsername[principal];
        Ok(message.(userId := Some(user.id), username := Some(user.username)))
    }
  }
}
