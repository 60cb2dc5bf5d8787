/** service/CollaborationService.java: the observer registry and the live edit
    operation, which applies an edit message straight to the document (it does
    not go through the DocumentEditor), saves it and broadcasts it. */
module Collaboration {
  import opened Exceptions
  import opened JavaLang
  import opened Model
  import opened Messages
  import opened Observer
  import opened Repositories
  import TextBuffer

  /** What processEdit leaves as the content, or the exception it throws:
      "insert" and "delete" go through the bounds-checked buffer operations,
      "replace" overwrites, and any other operation string edits nothing. */
  function ApplyEdit(content: string, message: DocumentEditMessage): (r: Result<string>)
    ensures r.Err? ==> r.error == IndexOutOfBounds && message.operation in {"insert", "delete"}
    ensures message.operation == "insert" ==> r == TextBuffer.Insert(content, message.position, message.text)
    ensures message.operation == "delete" ==> r == TextBuffer.Delete(content, message.position, message.length)
    ensures message.operation == "replace" ==> r == Ok(message.text)
    ensures message.operation !in {"insert", "delete", "replace"} ==> r == Ok(content)
  {
    if message.operation == "insert" then TextBuffer.Insert(content, message.position, message.text)
    else if message.operation == "delete" then TextBuffer.Delete(content, message.position, message.length)
    else if message.operation == "replace" then Ok(message.text)
    else Ok(content)
  }

  /** The message as it leaves processEdit: stamped with the editing user. */
  function Stamped(message: DocumentEditMessage, user: User): (m: DocumentEditMessage)
    ensures m.userId == Some(user.id) && m.username == Some(user.username)
    ensures m.(userId := message.userId, username := message.username) == message
  {
    message.(userId := Some(user.id), username := Some(user.username))
  }

  class CollaborationService {
    const documentRepository: DocumentRepository
    var observers: seq<ClientConnection>

    constructor (documentRepository: DocumentRepository)
      ensures this.documentRepository == documentRepository && observers == []
    {
      this.documentRepository := documentRepository;
      observers := [];
    }

    method RegisterObserver(observer: ClientConnection)
      modifies this`observers
      ensures observers == old(observers) + [observer]
    {
      observers := observers + [observer];
    }

    method RemoveObserver(observer: ClientConnection)
      modifies this`observers
      ensures observers == RemoveFirst(old(observers), observer)
    {
      observers := RemoveFirst(observers, observer);
    }

    /** Calls `update` once on each observer, in list order. */
    method NotifyObservers(change: DocumentEditMessage, transport: Transport)
      requires change.userId.Some?
      modifies transport`sent
      ensures transport.sent == old(transport.sent) + Broadcast(observers, change, transport.open)
    {
      for i := 0 to |observers|
        invariant transport.sent == old(transport.sent) + Broadcast(observers[..i], change, transport.open)
      {
        BroadcastStep(observers, i, change, transport.open);
        observers[i].Update(change, transport);
      }
      assert observers[..|observers|] == observers;
    }

    /** Applies the edit; an out-of-range insert or delete throws before anything
        changes. Otherwise the document is saved and the message is stamped with
        the user and broadcast, also for an operation string it does not know. */
    method ProcessEdit(document: Document, user: User, message: DocumentEditMessage, transport: Transport)
      returns (r: Result<DocumentEditMessage>)
      requires documentRepository.Valid()
      modifies document`content, documentRepository, transport`sent
      ensures documentRepository.Valid()
      ensures var edit := old(ApplyEdit(document.content, message));
        && document.content == edit.GetOr(old(document.content))
        && (edit.Err? ==> && r == Err(edit.error)
                          && documentRepository.documents == old(documentRepository.documents)
                          && transport.sent == old(transport.sent))
        && (edit.Ok? ==> && r == Ok(Stamped(message, user))
                         && documentRepository.documents == old(documentRepository.documents)[document.id := document]
                         && transport.sent == old(transport.sent) + Broadcast(observers, Stamped(message, user), transport.open))
    {
      var edit: Outcome;
      if message.operation == "insert" {
        edit := document.InsertText(message.position, message.text);
      } else if message.operation == "delete" {
        edit := document.DeleteText(message.position, message.length);
      } else if message.operation == "replace" {
        document.content := message.text;
        edit := Pass;
      } else {
        edit := Pass;
      }
      if edit.Fail? {
        return Err(edit.error);
      }
      documentRepository.Save(document);
      var stamped := message.(userId := Some(user.id), username := Some(user.username));
      NotifyObservers(stamped, transport);
      r := Ok(stamped);
    }
  }
}
