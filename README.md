# Markdown collaboration editor: the in-memory edit engine in Dafny

This project models the in-memory edit engine of a collaborative Markdown editor (a Spring and JavaFX application) and proves its properties. It has six parts:

- **Text buffer.** A document's `content` supports position-indexed insert, delete and range-read. They follow the bounds checks, clamping and errors of Java's `StringBuilder` and `substring`, including the 32-bit `int` arithmetic of `position + length`. Positions count characters (Unicode scalar values), not UTF-16 code units; see "Left out".
- **Membership links.** A document has an owner and a set of collaborators, and a user has owned and collaborating documents.
- **Edit commands.** `InsertTextCommand` and `DeleteTextCommand` are classes that edit a referenced document. A delete records the text it removes.
- **Undo/redo invoker.** `DocumentEditor` keeps an undo stack and a redo stack per document id.
- **Access predicates.** The live edit path uses `canUserEdit`, which matches the owner by id and a collaborator by object identity. `DocumentService` uses `checkDocumentAccess`, which matches by id only. Only the owner can add or remove collaborators.
- **Broadcast and edit handler.** There is an observer list whose connections skip their own user's edits, then the `processEdit` dispatch, then the STOMP handler: authorize, apply, stamp.
- **Export.** The export-format factory, and the HTML escaping and page wrapping of the PDF exporter.

Modules, one per source unit:

- `Exceptions`: the exceptions thrown, and `Result`/`Option`.
- `JavaLang`: Java `int` addition, `Long.toString`, `toLowerCase` and one-character `replace`.
- `TextBuffer`, `Model`, `Commands` and `Editor`.
- `Messages` and `Repositories`.
- `Observer`, `Access`, `Collaboration`, `Documents` and `Controller`.
- `Export`.

Modelling choices:

- **State.** Entities whose fields change in place are classes with field-level `modifies` frames: `User`, `Document`, the commands, the editor, the services, the connection and the repositories.
- **Messages.** `DocumentEditMessage` and the cursor message are datatypes.
- **Command interface.** It is the closed union `Command` of the two command classes. Its `Execute`/`Undo` dispatch to the class methods and are specified by `ExecuteResult`/`UndoResult`.
- **Exceptions.** A thrown exception becomes an `Err`/`Fail` value. Each operation's contract states that nothing changed on that path, matching the point where the source throws.
- **Repositories.** They are maps. `save(d)` stores `d` under its id. `Valid` states that each document is stored under its own id.
- **WebSocket send.** It is modelled as an append of a frame to a `Transport` log. The model treats every send failure as the caught `IOException`, and represents it as a send to a session that is not open.
- **Signed-in user and clock.** The signed-in user is a parameter of the service methods. In the controller, the principal's name is a parameter. The clock is a parameter of `CreateNewVersion`.

Where the code and its prose description differ, the model follows the code:

- `processEdit` edits the document directly, at CollaborationService.java:46-52. It never goes through `DocumentEditor`.
- `deleteText` clamps an end past the content. An end that overflows `int` makes it throw.
- `createNewVersion` takes the two arguments it is declared with.
- A command whose `undo` (or, on redo, `execute`) throws after being popped is lost from both stacks.

## Model

| member | source | states |
|---|---|---|
| JavaLang.AddInt | src/main/java/com/markdowncollab/model/Document.java:135 | `position + length` in 32-bit two's complement: exact when in range, negative after a positive overflow |
| JavaLang.NatToStringShape | src/main/java/com/markdowncollab/pattern/observer/ClientConnection.java:31 | the decimal rendering is non-empty, all digits, one character exactly below 10 |
| JavaLang.NatToStringInjective | src/main/java/com/markdowncollab/pattern/observer/ClientConnection.java:31 | distinct naturals render differently |
| JavaLang.LongToStringInjective | src/main/java/com/markdowncollab/pattern/observer/ClientConnection.java:31 | `Long.toString` is injective, so comparing rendered ids is comparing ids |
| JavaLang.ToLowerCase | src/main/java/com/markdowncollab/pattern/factory/DocumentExporterFactory.java:17 | lower-casing keeps the length and maps each character through the ASCII case map |
| JavaLang.ToLowerCaseIdempotent | src/main/java/com/markdowncollab/pattern/factory/DocumentExporterFactory.java:17 | lower-casing twice equals lower-casing once |
| JavaLang.ReplaceChar | src/main/java/com/markdowncollab/pattern/factory/PDFExporter.java:77 | a string without the target is unchanged; a non-empty replacement never shortens |
| JavaLang.ReplaceCharAppend | src/main/java/com/markdowncollab/pattern/factory/PDFExporter.java:76-81 | replacing distributes over concatenation |
| TextBuffer.Insert | src/main/java/com/markdowncollab/model/Document.java:127-131 | succeeds iff 0 <= position <= length, otherwise IndexOutOfBounds; the result is prefix, text, suffix and grows by the text's length |
| TextBuffer.Delete | src/main/java/com/markdowncollab/model/Document.java:133-137 | removes `content[p..p+l]`; an end past the content is clamped; p < 0, p > length, l < 0 or an overflowing end throws |
| TextBuffer.Range | src/main/java/com/markdowncollab/model/Document.java:139-144 | succeeds iff p >= 0, l >= 0 and p + l <= length without overflow; returns exactly `content[p..p+l]` |
| TextBuffer.InsertThenDelete | src/main/java/com/markdowncollab/model/Document.java:127-137 | inserting t at p and deleting \|t\| at p restores the content |
| TextBuffer.RangeDeleteInsert | src/main/java/com/markdowncollab/model/Document.java:127-144 | reading a range, deleting it and inserting the read text at p restores the content |
| TextBuffer.RangeThenDelete | src/main/java/com/markdowncollab/model/Document.java:133-144 | a readable range can be deleted, and the delete removes exactly the text read |
| Model.User.AddOwnedDocument | src/main/java/com/markdowncollab/model/User.java:57-60 | the document joins ownedDocuments and its owner becomes this user |
| Model.User.RemoveOwnedDocument | src/main/java/com/markdowncollab/model/User.java:62-65 | the document leaves ownedDocuments and its owner becomes null |
| Model.User.AddCollaboratingDocument | src/main/java/com/markdowncollab/model/User.java:67-70 | both sides of the link are added; nothing else changes |
| Model.User.RemoveCollaboratingDocument | src/main/java/com/markdowncollab/model/User.java:72-75 | both sides of the link are removed; nothing else changes |
| Model.Document.AddCollaborator | src/main/java/com/markdowncollab/model/Document.java:95-97 | set insertion into collaborators, idempotent; no other field changes |
| Model.Document.RemoveCollaborator | src/main/java/com/markdowncollab/model/Document.java:99-101 | set removal from collaborators; no other field changes |
| Model.Document.CreateNewVersion | src/main/java/com/markdowncollab/model/Document.java:104-114 | appends exactly one version (content, author, time) and sets content |
| Model.Document.InsertText | src/main/java/com/markdowncollab/model/Document.java:127-131 | content becomes the buffer insert's result; on an exception it is unchanged |
| Model.Document.GetTextRange | src/main/java/com/markdowncollab/model/Document.java:139-144 | succeeds iff the range lies inside the content (in `int` arithmetic), otherwise IndexOutOfBounds; returns exactly that slice |
| Model.Document.DeleteText | src/main/java/com/markdowncollab/model/Document.java:133-137 | content becomes the buffer delete's result; on an exception it is unchanged |
| Commands.InsertTextCommand.Execute | src/main/java/com/markdowncollab/pattern/command/InsertTextCommand.java:20-22 | inserts `text` at `position` in the referenced document |
| Commands.InsertTextCommand.Undo | src/main/java/com/markdowncollab/pattern/command/InsertTextCommand.java:25-27 | deletes exactly `\|text\|` characters at `position` |
| Commands.DeleteTextCommand.Execute | src/main/java/com/markdowncollab/pattern/command/DeleteTextCommand.java:21-25 | out of range: throws with document and deletedText unchanged; otherwise deletedText is the removed slice, of length `length`, and content shrinks by `length` |
| Commands.DeleteTextCommand.Undo | src/main/java/com/markdowncollab/pattern/command/DeleteTextCommand.java:28-30 | reinserts deletedText (the text "null" before any execute) at `position` |
| Commands.Command.RecordedText | src/main/java/com/markdowncollab/pattern/command/DeleteTextCommand.java:23 | a delete command's deletedText after execute: the range read when readable, the old value when the read throws |
| Commands.Command.Execute | src/main/java/com/markdowncollab/pattern/command/Command.java:12 | the interface call does what the concrete command's execute does: the content, the outcome and, for a delete, what deletedText becomes |
| Commands.Command.Undo | src/main/java/com/markdowncollab/pattern/command/Command.java:17 | the interface call does what the concrete command's undo does |
| Commands.InsertExecuteThenUndo | src/main/java/com/markdowncollab/pattern/command/InsertTextCommand.java:20-27 | for a valid position both calls succeed and the content is restored |
| Commands.InsertExecuteUndoExecute | src/main/java/com/markdowncollab/pattern/command/InsertTextCommand.java:10-27 | execute, undo, execute leaves what one execute leaves, successful or not |
| Commands.DeleteExecuteThenUndo | src/main/java/com/markdowncollab/pattern/command/DeleteTextCommand.java:21-30 | for a readable range both calls succeed, the content is restored and deletedText holds the removed slice |
| Editor.DocumentEditor.CanUndo | src/main/java/com/markdowncollab/pattern/command/DocumentEditor.java:36-38 | true iff the id's undo stack exists and is non-empty; false for unknown ids |
| Editor.DocumentEditor.CanRedo | src/main/java/com/markdowncollab/pattern/command/DocumentEditor.java:40-42 | true iff the id's redo stack exists and is non-empty; false for unknown ids |
| Editor.DocumentEditor.ExecuteCommand | src/main/java/com/markdowncollab/pattern/command/DocumentEditor.java:19-34 | runs the command (content and a delete's deletedText as the command states); on success pushes it and empties redo; on an exception only missing empty stacks appear and redo is kept |
| Editor.DocumentEditor.Undo | src/main/java/com/markdowncollab/pattern/command/DocumentEditor.java:44-50 | no-op unless canUndo; pops the top, undoes it, pushes it on redo; keeps \|undo\|+\|redo\| and leaves other ids' stacks alone |
| Editor.DocumentEditor.Redo | src/main/java/com/markdowncollab/pattern/command/DocumentEditor.java:52-58 | no-op unless canRedo; pops the top, executes it (re-recording a delete's deletedText), pushes it on undo; keeps \|undo\|+\|redo\| and leaves other ids' stacks alone |
| Editor.DocumentEditor.ClearHistory | src/main/java/com/markdowncollab/pattern/command/DocumentEditor.java:60-67 | empties both stacks of an id that has them, creates none otherwise |
| Editor.HelloWorldSession | src/main/java/com/markdowncollab/pattern/command/DocumentEditor.java:19-58 | insert " world" into "hello", undo, redo reads "hello world", "hello", "hello world" |
| Editor.DeleteThenUndoThroughEditor | src/main/java/com/markdowncollab/pattern/command/DocumentEditor.java:19-50 | executing a delete of a readable range and undoing it through the editor restores the content and leaves it redoable |
| Editor.InsertThenUndoThroughEditor | src/main/java/com/markdowncollab/pattern/command/DocumentEditor.java:19-50 | executing an insert at a valid position and undoing it through the editor restores the content and leaves it redoable |
| Editor.ExecuteAfterUndoClearsRedo | src/main/java/com/markdowncollab/pattern/command/DocumentEditor.java:19-34 | after a successful execute nothing can be redone |
| Repositories.DocumentRepository.Save | src/main/java/com/markdowncollab/service/CollaborationService.java:55 | stores the document under its id; saving a stored document changes nothing |
| Observer.ClientConnection.Update | src/main/java/com/markdowncollab/pattern/observer/ClientConnection.java:29-38 | writes what Delivery says and nothing else; a failed send does not propagate |
| Observer.Delivery | src/main/java/com/markdowncollab/pattern/observer/ClientConnection.java:29-38 | one frame iff the change is another user's and the session is open, none otherwise |
| Observer.ClientConnection.Forwards | src/main/java/com/markdowncollab/pattern/observer/ClientConnection.java:31 | the self-echo test on the rendered user id; it can only skip a connection whose id reads as a decimal numeral |
| Observer.ForwardsIffOtherUser | src/main/java/com/markdowncollab/pattern/observer/ClientConnection.java:31 | a connection of user u skips an edit iff the edit is u's; the filter is by user, not by session |
| Observer.BroadcastStep | src/main/java/com/markdowncollab/service/CollaborationService.java:38-39 | one more loop iteration adds exactly that observer's delivery |
| Observer.BroadcastFrames | src/main/java/com/markdowncollab/service/CollaborationService.java:37-41 | a frame is sent iff it carries the change to the open session of a registered connection of another user |
| Observer.BroadcastToAll | src/main/java/com/markdowncollab/service/CollaborationService.java:37-41 | when all connections are other users' open ones, each gets the change once, in registration order |
| Observer.Broadcast | src/main/java/com/markdowncollab/service/CollaborationService.java:37-41 | what the update calls write in list order: at most one frame per observer, each carrying the change to an open session |
| Observer.RemoveFirst | src/main/java/com/markdowncollab/service/CollaborationService.java:32-34 | list removal: absent means unchanged, present means one element (that one) fewer |
| Observer.RemoveFirstCutsFirstOccurrence | src/main/java/com/markdowncollab/service/CollaborationService.java:32-34 | exactly the first occurrence is cut out, the rest keeps its order |
| Access.CanUserEdit | src/main/java/com/markdowncollab/service/CollaborationService.java:63-66 | owner id equal or the user object among the collaborators; implies HasAccess |
| Access.HasAccess | src/main/java/com/markdowncollab/service/DocumentService.java:246-255 | the user's id is the owner's id or some collaborator's id |
| Access.AccessVersusCanUserEdit | src/main/java/com/markdowncollab/service/DocumentService.java:244-269 | the two checks differ exactly on a different User object with a collaborator's id |
| Collaboration.ApplyEdit | src/main/java/com/markdowncollab/service/CollaborationService.java:46-52 | "insert", "delete" and "replace" go to insert, delete and overwrite; any other operation keeps the content; only insert and delete throw |
| Collaboration.Stamped | src/main/java/com/markdowncollab/service/CollaborationService.java:58-59 | the message with the editor's id and username and nothing else changed |
| Collaboration.CollaborationService.RegisterObserver | src/main/java/com/markdowncollab/service/CollaborationService.java:27-29 | appends the observer |
| Collaboration.CollaborationService.RemoveObserver | src/main/java/com/markdowncollab/service/CollaborationService.java:32-34 | removes the first occurrence of the observer |
| Collaboration.CollaborationService.NotifyObservers | src/main/java/com/markdowncollab/service/CollaborationService.java:37-41 | calls update once per observer in list order: the log grows by Broadcast |
| Collaboration.CollaborationService.ProcessEdit | src/main/java/com/markdowncollab/service/CollaborationService.java:44-61 | a throwing edit changes nothing; otherwise content is ApplyEdit's, the document is saved and the stamped message is broadcast, also for an unknown operation |
| Documents.DocumentService.FindById | src/main/java/com/markdowncollab/service/DocumentService.java:42-45 | the stored document, whose id is the key, or DocumentNotFound |
| Documents.DocumentService.OwnerGate | src/main/java/com/markdowncollab/service/DocumentService.java:145-151 | document found and the caller's id is its owner's, else DocumentNotFound, NullPointer or AccessDenied |
| Documents.DocumentService.CheckDocumentAccess | src/main/java/com/markdowncollab/service/DocumentService.java:244-269 | passes iff HasAccess; throws AccessDenied otherwise (NullPointer without an owner) |
| Documents.DocumentService.UpdateDocument | src/main/java/com/markdowncollab/service/DocumentService.java:90-112 | the check runs before the write: content is set iff the document exists and the caller has access; no other document changes |
| Documents.DocumentService.AddCollaborator | src/main/java/com/markdowncollab/service/DocumentService.java:143-173 | non-owner: AccessDenied; unknown name: UserNotFound; returns whether the user was new, who is then in the set; only that set changes |
| Documents.DocumentService.RemoveCollaborator | src/main/java/com/markdowncollab/service/DocumentService.java:175-197 | owner-only; returns whether the user was present, who is then not in the set; only that set changes |
| Controller.CollaborationController.HandleDocumentEdit | src/main/java/com/markdowncollab/controller/CollaborationController.java:37-62 | unknown user, unknown document, denied edit: an error, no content change, nothing sent; otherwise the edit is applied once and the stamped message is returned and broadcast |
| Controller.CollaborationController.HandleCursorUpdate | src/main/java/com/markdowncollab/controller/CollaborationController.java:66-80 | the cursor message stamped with the user's id and name, position kept, no document read |
| Export.Exporter.ContentType | src/main/java/com/markdowncollab/pattern/factory/PDFExporter.java:40-42 | the exporter's MIME type: a `text/` type for HTML, an `application/` type for PDF and DOCX |
| Export.Exporter.FileExtension | src/main/java/com/markdowncollab/pattern/factory/PDFExporter.java:45-47 | the exporter's extension: lower-case letters only, so lower-casing keeps it |
| Export.CreateExporter | src/main/java/com/markdowncollab/pattern/factory/DocumentExporterFactory.java:16-27 | an exporter iff the lower-cased format is pdf, html or docx, whose extension is that key; otherwise UnsupportedExportFormat |
| Export.CreateExporterCaseInsensitive | src/main/java/com/markdowncollab/pattern/factory/DocumentExporterFactory.java:17 | the dispatch does not depend on letter case |
| Export.CreateExporterFromExtension | src/main/java/com/markdowncollab/pattern/factory/PDFExporter.java:40-47 | each exporter's extension dispatches back to it; extensions and content types are distinct |
| Export.EscapeHtml | src/main/java/com/markdowncollab/pattern/factory/PDFExporter.java:74-82 | null gives ""; never shortens; identity on text without & < > " ' |
| Export.EscapeHtmlPerCharacter | src/main/java/com/markdowncollab/pattern/factory/PDFExporter.java:76-81 | the replace chain equals the per-character entity mapping (entities introduced are not re-escaped) |
| Export.EscapeHtmlNoMarkup | src/main/java/com/markdowncollab/pattern/factory/PDFExporter.java:76-81 | the output has no < > " ' |
| Export.EscapeHtmlInvertible | src/main/java/com/markdowncollab/pattern/factory/PDFExporter.java:76-81 | reading the entities back gives the input, so escaping is injective |
| Export.DefaultTitleKept | src/main/java/com/markdowncollab/pattern/factory/PDFExporter.java:51 | escaping leaves "Untitled Document" as it is |
| Export.SafeTitle | src/main/java/com/markdowncollab/pattern/factory/PDFExporter.java:51 | null title gives "Untitled Document"; the title is escaped and holds no markup |
| Export.WrapHtml | src/main/java/com/markdowncollab/pattern/factory/PDFExporter.java:49-71 | the page starts with the doctype, carries the safe title after the fixed head and ends with the content verbatim between the body tags |

## Left out

- The JavaFX UI, the REST controllers, the Spring bootstrap and seed data: user interface and HTTP routing.
- Persistence: the JPA repositories are maps; queries such as `findAllAccessibleByUser`, transactions and the version and comment repositories are not modelled.
- Authentication: the signed-in user is a parameter, so `getCurrentUser` failing (no authentication, unknown user) is not modelled in DocumentService; `principal.getName()` on a null principal is not modelled.
- DocumentService reads (`getDocumentById`, `getUserDocuments`), `createDocument`, `renderMarkdown` and `exportDocument`: they wrap the modelled checks around persistence, rendering or export bodies.
- saveDocumentWithVersion: it calls a three-argument `createNewVersion` that Document does not declare; the two-argument one is modelled.
- Markdown rendering and the export bodies (`PDFExporter.export`, `HTMLExporter`, `DocxExporter`): foreign libraries. HTMLExporter and DocxExporter appear only through content type and extension.
- Document comments (`addComment`/`removeComment`), timestamps (`createdAt`/`updatedAt`) and JSON serialization of messages.
- Concurrency: the `CopyOnWriteArrayList` of observers and cross-thread ordering; the model is sequential.
- Java null strings: content, text, operation and usernames are never null; only a document's title and `deletedText` model null.
- Collaboration.CollaborationService.NotifyObservers: requires a stamped user id; a null id is a `NullPointerException` in `update`, which processEdit never produces.
- TextBuffer.Insert, TextBuffer.Delete and TextBuffer.Range: positions and lengths count Unicode scalar values, whereas Java counts UTF-16 code units, so text with supplementary characters (such as emoji) indexes differently, and a delete or range that would split a surrogate pair cannot be represented; the bounds checks hold for text in the Basic Multilingual Plane.
- Observer.ClientConnection.Update: only a checked `IOException` from the send is caught; an unchecked exception from the WebSocket container would propagate out of `update` and `notifyObservers`, which is not modelled.
- JavaLang.ToLowerCase: covers the ASCII letters only, not Unicode or locale-dependent case mapping.
- Strings are unbounded; `OutOfMemoryError` and `String` length limits are not modelled except for the text of an insert command.
- Collaborator membership in `Set<User>` is by object identity, since User does not override `equals`; JPA identity semantics across sessions are not modelled.
- dto/CursorPositionMessage.java is not part of this model; its fields are inferred from the controller.
