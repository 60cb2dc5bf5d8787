/** The two entities of the edit engine, Document and User (model/Document.java,
    model/User.java), as classes whose fields the source updates in place. */
module Model {
  import opened Exceptions
  import opened JavaLang
  import TextBuffer

  /** One entry of a document's version trail. */
  datatype Version = Version(content: string, author: User, createdAt: int)

  class User {
    const id: int
    const username: string
    var ownedDocuments: set<Document>
    var collaboratingDocuments: set<Document>

    constructor (id: int, username: string)
      ensures this.id == id && this.username == username
      ensures ownedDocuments == {} && collaboratingDocuments == {}
    {
      this.id := id;
      this.username := username;
      ownedDocuments := {};
      collaboratingDocuments := {};
    }

    /** Both sides of the ownership link: the document joins this user's owned
        documents and names this user as its owner. */
    method AddOwnedDocument(document: Document)
      modifies this`ownedDocuments, document`owner
      ensures ownedDocuments == old(ownedDocuments) + {document}
      ensures document.owner == this
    {
      ownedDocuments := ownedDocuments + {document};
      document.owner := this;
    }

    /** Both sides of the ownership link are cut; the document is left with no owner. */
    method RemoveOwnedDocument(document: Document)
      modifies this`ownedDocuments, document`owner
      ensures ownedDocuments == old(ownedDocuments) - {document}
      ensures document.owner == null
    {
      ownedDocuments := ownedDocuments - {document};
      document.owner := null;
    }

    method AddCollaboratingDocument(document: Document)
      modifies this`collaboratingDocuments, document`collaborators
      ensures collaboratingDocuments == old(collaboratingDocuments) + {document}
      ensures document.collaborators == old(document.collaborators) + {this}
      ensures Collaborates(this, document)
    {
      collaboratingDocuments := collaboratingDocuments + {document};
      document.collaborators := document.collaborators + {this};
    }

    method RemoveCollaboratingDocument(document: Document)
      modifies this`collaboratingDocuments, document`collaborators
      ensures collaboratingDocuments == old(collaboratingDocuments) - {document}
      ensures document.collaborators == old(document.collaborators) - {this}
      ensures document !in collaboratingDocuments && this !in document.collaborators
    {
      collaboratingDocuments := collaboratingDocuments - {document};
      document.collaborators := document.collaborators - {this};
    }
  }

  /** The collaboration link seen from both ends. */
  predicate Collaborates(user: User, document: Document)
    reads user, document
  {
    document in user.collaboratingDocuments && user in document.collaborators
  }

  class Document {
    const id: int
    var title: Option<string>
    var content: string
    var owner: User?
    var collaborators: set<User>
    var versions: seq<Version>

    constructor (id: int, title: Option<string>, content: string, owner: User?)
      ensures this.id == id && this.title == title && this.content == content && this.owner == owner
      ensures collaborators == {} && versions == []
    {
      this.id := id;
      this.title := title;
      this.content := content;
      this.owner := owner;
      collaborators := {};
      versions := [];
    }

    /** Set insertion: adding a present collaborator changes nothing. */
    method AddCollaborator(user: User)
      modifies this`collaborators
      ensures collaborators == old(collaborators) + {user}
    {
      collaborators := collaborators + {user};
    }

    method RemoveCollaborator(user: User)
      modifies this`collaborators
      ensures collaborators == old(collaborators) - {user}
    {
      collaborators := collaborators - {user};
    }

    /** Appends one version (the clock reading is a parameter) and makes its
        content the current content. */
    method CreateNewVersion(content: string, author: User, now: int)
      modifies this`versions, this`content
      ensures versions == old(versions) + [Version(content, author, now)]
      ensures this.content == content
    {
      versions := versions + [Version(content, author, now)];
      this.content := content;
    }

    /** Throws IndexOutOfBounds, leaving the content as it was, outside
        0..|content|; otherwise the text is spliced in. */
    method InsertText(position: Int, text: string) returns (r: Outcome)
      modifies this`content
      ensures r == old(TextBuffer.Insert(content, position, text)).ToOutcome()
      ensures content == old(TextBuffer.Insert(content, position, text)).GetOr(old(content))
    {
      var next := TextBuffer.Insert(content, position, text);
      if next.Ok? {
        content := next.value;
      }
      r := next.ToOutcome();
    }

    method DeleteText(position: Int, length: Int) returns (r: Outcome)
      modifies this`content
      ensures r == old(TextBuffer.Delete(content, position, length)).ToOutcome()
      ensures content == old(TextBuffer.Delete(content, position, length)).GetOr(old(content))
    {
      var next := TextBuffer.Delete(content, position, length);
      if next.Ok? {
        content := next.value;
      }
      r := next.ToOutcome();
    }

    /** A pure read of the content. */
    function GetTextRange(position: Int, length: Int): (r: Result<string>)
      reads this
      ensures r.Ok? <==> 0 <= position && 0 <= length && position + length <= |content| && position + length <= MaxInt
      ensures r.Err? ==> r.error == IndexOutOfBounds
      ensures r.Ok? ==> r.value == content[position..position + length]
    {
      TextBuffer.Range(content, position, length)
    }
  }
}
