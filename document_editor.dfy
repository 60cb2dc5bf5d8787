/** The Command pattern's invoker (pattern/command/DocumentEditor.java): an undo
    stack and a redo stack per document id. A stack is a sequence whose last
    element is the top. */
module Editor {
  import opened Exceptions
  import opened JavaLang
  import opened Model
  import opened Commands
  import TextBuffer

  /** The stack kept for `id`, with an absent key read as an empty stack. */
  function StackOf(stacks: map<int, seq<Command>>, id: int): seq<Command> {
    if id in stacks then stacks[id] else []
  }

  class DocumentEditor {
    var undoStackMap: map<int, seq<Command>>
    var redoStackMap: map<int, seq<Command>>

    /** Stacks are only ever created in pairs, so `undo` and `redo` always find
        the other stack of the pair they move a command to. */
    ghost predicate Valid()
      reads this
    {
      undoStackMap.Keys == redoStackMap.Keys
    }

    constructor ()
      ensures Valid() && undoStackMap == map[] && redoStackMap == map[]
    {
      undoStackMap := map[];
      redoStackMap := map[];
    }

    /** True iff the document has a stack and it is non-empty; false for an unknown id. */
    predicate CanUndo(id: int)
      reads this
      ensures CanUndo(id) <==> StackOf(undoStackMap, id) != []
    {
      id in undoStackMap && undoStackMap[id] != []
    }

    /** True iff the document has a stack and it is non-empty; false for an unknown id. */
    predicate CanRedo(id: int)
      reads this
      ensures CanRedo(id) <==> StackOf(redoStackMap, id) != []
    {
      id in redoStackMap && redoStackMap[id] != []
    }

    /** The documents an `Undo(id)` may edit: that of the top undo command. */
    function UndoTargets(id: int): set<Document>
      reads this
    {
      if CanUndo(id) then {undoStackMap[id][|undoStackMap[id]| - 1].Target()} else {}
    }

    /** The objects a `Redo(id)` may change: the top redo command's document and,
        for a delete, the command itself. */
    function RedoTargets(id: int): set<Document>
      reads this
    {
      if CanRedo(id) then {redoStackMap[id][|redoStackMap[id]| - 1].Target()} else {}
    }

    function RedoRecorders(id: int): set<DeleteTextCommand>
      reads this
    {
      if CanRedo(id) then redoStackMap[id][|redoStackMap[id]| - 1].Recorders() else {}
    }

    /** Creates the document's stacks if missing, runs the command (an exception
        propagates: nothing is pushed and redo is kept), then pushes it on undo
        and empties redo. */
    method ExecuteCommand(document: Document, command: Command) returns (r: Outcome)
      requires Valid()
      modifies this, command.Target()`content, command.Recorders()`deletedText
      ensures Valid()
      ensures r == old(command.ExecuteResult()).ToOutcome()
      ensures command.Target().content == old(command.ExecuteResult()).GetOr(old(command.Target().content))
      ensures command.DeleteCmd? ==> command.del.deletedText == old(command.RecordedText())
      ensures r.Pass? ==> && undoStackMap == old(undoStackMap)[document.id := StackOf(old(undoStackMap), document.id) + [command]]
                          && redoStackMap == old(redoStackMap)[document.id := []]
      ensures r.Fail? ==> && undoStackMap == old(undoStackMap)[document.id := StackOf(old(undoStackMap), document.id)]
                          && redoStackMap == old(redoStackMap)[document.id := StackOf(old(redoStackMap), document.id)]
    {
      var documentId := document.id;
      if documentId !in undoStackMap {
        undoStackMap := undoStackMap[documentId := []];
      }
      if documentId !in redoStackMap {
        redoStackMap := redoStackMap[documentId := []];
      }
      r := command.Execute();
      if r.Fail? {
        return;
      }
      undoStackMap := undoStackMap[documentId := undoStackMap[documentId] + [command]];
      redoStackMap := redoStackMap[documentId := []];
    }

    /** Without an undoable command: nothing happens. Otherwise the top command is
        popped and undone, then pushed on redo; if its undo throws, the popped
        command is not pushed anywhere. */
    method Undo(id: int) returns (r: Outcome)
      requires Valid()
      modifies this, UndoTargets(id)`content
      ensures Valid()
      ensures !old(CanUndo(id)) ==> r == Pass && undoStackMap == old(undoStackMap) && redoStackMap == old(redoStackMap)
      ensures old(CanUndo(id)) ==>
        var stack := old(undoStackMap[id]);
        var c := stack[|stack| - 1];
        && r == old(c.UndoResult()).ToOutcome()
        && c.Target().content == old(c.UndoResult()).GetOr(old(c.Target().content))
        && undoStackMap == old(undoStackMap)[id := stack[..|stack| - 1]]
        && redoStackMap == (if r.Pass? then old(redoStackMap)[id := old(redoStackMap[id]) + [c]] else old(redoStackMap))
      ensures r.Pass? ==> (|StackOf(undoStackMap, id)| + |StackOf(redoStackMap, id)|
                           == |StackOf(old(undoStackMap), id)| + |StackOf(old(redoStackMap), id)|)
      ensures forall other :: other != id ==> (&& StackOf(undoStackMap, other) == StackOf(old(undoStackMap), other)
                                               && StackOf(redoStackMap, other) == StackOf(old(redoStackMap), other))
    {
      if CanUndo(id) {
        var stack := undoStackMap[id];
        var command := stack[|stack| - 1];
        undoStackMap := undoStackMap[id := stack[..|stack| - 1]];
        r := command.Undo();
        if r.Fail? {
          return;
        }
        redoStackMap := redoStackMap[id := redoStackMap[id] + [command]];
      } else {
        r := Pass;
      }
    }

    /** The mirror image of Undo: the top redo command is popped, executed again
        and pushed on undo; if it throws it is not pushed anywhere. */
    method Redo(id: int) returns (r: Outcome)
      requires Valid()
      modifies this, RedoTargets(id)`content, RedoRecorders(id)`deletedText
      ensures Valid()
      ensures !old(CanRedo(id)) ==> r == Pass && undoStackMap == old(undoStackMap) && redoStackMap == old(redoStackMap)
      ensures old(CanRedo(id)) ==>
        var stack := old(redoStackMap[id]);
        var c := stack[|stack| - 1];
        && r == old(c.ExecuteResult()).ToOutcome()
        && c.Target().content == old(c.ExecuteResult()).GetOr(old(c.Target().content))
        && (c.DeleteCmd? ==> c.del.deletedText == old(c.RecordedText()))
        && redoStackMap == old(redoStackMap)[id := stack[..|stack| - 1]]
        && undoStackMap == (if r.Pass? then old(undoStackMap)[id := old(undoStackMap[id]) + [c]] else old(undoStackMap))
      ensures r.Pass? ==> (|StackOf(undoStackMap, id)| + |StackOf(redoStackMap, id)|
                           == |StackOf(old(undoStackMap), id)| + |StackOf(old(redoStackMap), id)|)
      ensures forall other :: other != id ==> (&& StackOf(undoStackMap, other) == StackOf(old(undoStackMap), other)
                                               && StackOf(redoStackMap, other) == StackOf(old(redoStackMap), other))
    {
      if CanRedo(id) {
        var stack := redoStackMap[id];
        var command := stack[|stack| - 1];
        redoStackMap := redoStackMap[id := stack[..|stack| - 1]];
        r := command.Execute();
        if r.Fail? {
          return;
        }
        undoStackMap := undoStackMap[id := undoStackMap[id] + [command]];
      } else {
        r := Pass;
      }
    }

    /** Empties both stacks of a document that has them; an id without stacks
        gets none. */
    method ClearHistory(id: int)
      requires Valid()
      modifies this
      ensures Valid()
      ensures id in old(undoStackMap) ==> undoStackMap == old(undoStackMap)[id := []] && redoStackMap == old(redoStackMap)[id := []]
      ensures id !in old(undoStackMap) ==> undoStackMap == old(undoStackMap) && redoStackMap == old(redoStackMap)
      ensures !CanUndo(id) && !CanRedo(id)
    {
      if id in undoStackMap {
        undoStackMap := undoStackMap[id := []];
      }
      if id in redoStackMap {
        redoStackMap := redoStackMap[id := []];
      }
    }
  }

  /** "hello", insert " world" at 5, undo, redo: the content reads "hello world",
      "hello", "hello world". */
  method HelloWorldSession() returns (afterInsert: string, afterUndo: string, afterRedo: string)
    ensures afterInsert == "hello world" && afterUndo == "hello" && afterRedo == "hello world"
  {
    var owner := new User(1, "alice");
    var document := new Document(7, Some("Greeting"), "hello", owner);
    var editor := new DocumentEditor();
    var insert := new InsertTextCommand(document, 5, " world");
    var command := InsertCmd(insert);
    assert TextBuffer.Insert("hello", 5, " world") == Ok("hello world") by {
      assert "hello"[..5] + " world" + "hello"[5..] == "hello world";
    }
    assert TextBuffer.Delete("hello world", 5, 6) == Ok("hello") by {
      assert "hello world"[..5] + "hello world"[11..] == "hello";
    }
    var r := editor.ExecuteCommand(document, command);
    afterInsert := document.content;
    assert editor.undoStackMap[7] == [command];
    r := editor.Undo(7);
    afterUndo := document.content;
    assert editor.redoStackMap[7] == [command];
    r := editor.Redo(7);
    afterRedo := document.content;
  }

  /** Linear history: once a new command has run, nothing is left to redo. */
  method ExecuteAfterUndoClearsRedo(editor: DocumentEditor, document: Document, command: Command) returns (r: Outcome)
    requires editor.Valid()
    requires command.ExecuteResult().Ok?
    modifies editor, command.Target()`content, command.Recorders()`deletedText
    ensures r == Pass && !editor.CanRedo(document.id)
  {
    r := editor.ExecuteCommand(document, command);
  }

  /** Through the editor, a delete of a readable range followed by an undo of
      that document gives back its content: the delete records what it removes. */
  method DeleteThenUndoThroughEditor(editor: DocumentEditor, command: DeleteTextCommand) returns (executed: Outcome, undone: Outcome)
    requires editor.Valid()
    requires TextBuffer.Range(command.document.content, command.position, command.length).Ok?
    modifies editor, command.document`content, command`deletedText
    ensures executed == Pass && undone == Pass
    ensures command.document.content == old(command.document.content)
    ensures editor.Valid() && editor.CanRedo(command.document.id)
  {
    TextBuffer.RangeDeleteInsert(command.document.content, command.position, command.length);
    executed := editor.ExecuteCommand(command.document, DeleteCmd(command));
    undone := editor.Undo(command.document.id);
  }

  /** The same for an insert at a valid position. */
  method InsertThenUndoThroughEditor(editor: DocumentEditor, command: InsertTextCommand) returns (executed: Outcome, undone: Outcome)
    requires editor.Valid()
    requires 0 <= command.position <= |command.document.content|
    requires command.position + |command.text| <= MaxInt
    modifies editor, command.document`content
    ensures executed == Pass && undone == Pass
    ensures command.document.content == old(command.document.content)
    ensures editor.Valid() && editor.CanRedo(command.document.id)
  {
    TextBuffer.InsertThenDelete(command.document.content, command.position, command.text);
    executed := editor.ExecuteCommand(command.document, InsertCmd(command));
    undone := editor.Undo(command.document.id);
  }
}
