/** The Command pattern (pattern/command): InsertTextCommand and DeleteTextCommand
    as classes over a referenced Document, and the Command interface as a closed
    union of the two. */
module Commands {
  import opened Exceptions
  import opened JavaLang
  import opened Model
  import TextBuffer

  /** A Java String: its length fits in an `int`. */
  type JString = s: string | |s| <= MaxInt

  /** What `StringBuilder.insert(int, String)` inserts for a possibly-null
      String: the four characters "null" when it is null. */
  function InsertedText(s: Option<string>): string {
    s.GetOr("null")
  }

  class InsertTextCommand {
    const document: Document
    const position: Int
    const text: JString

    constructor (document: Document, position: Int, text: JString)
      ensures this.document == document && this.position == position && this.text == text
    {
      this.document := document;
      this.position := position;
      this.text := text;
    }

    /** Inserts `text` at `position` of the referenced document. */
    method Execute() returns (r: Outcome)
      modifies document`content
      ensures r == old(TextBuffer.Insert(document.content, position, text)).ToOutcome()
      ensures document.content == old(TextBuffer.Insert(document.content, position, text)).GetOr(old(document.content))
    {
      r := document.InsertText(position, text);
    }

    /** Deletes exactly `|text|` characters at `position`. */
    method Undo() returns (r: Outcome)
      modifies document`content
      ensures r == old(TextBuffer.Delete(document.content, position, |text|)).ToOutcome()
      ensures document.content == old(TextBuffer.Delete(document.content, position, |text|)).GetOr(old(document.content))
    {
      r := document.DeleteText(position, |text|);
    }
  }

  class DeleteTextCommand {
    const document: Document
    const position: Int
    const length: Int
    /** The text removed by the last successful Execute; `None` is Java's null. */
    var deletedText: Option<string>

    constructor (document: Document, position: Int, length: Int)
      ensures this.document == document && this.position == position && this.length == length
      ensures deletedText == None
    {
      this.document := document;
      this.position := position;
      this.length := length;
      deletedText := None;
    }

    /** Reads the range first, so an out-of-range call throws before the document
        or `deletedText` changes; otherwise records the range and deletes it. */
    method Execute() returns (r: Outcome)
      modifies this`deletedText, document`content
      ensures r == old(TextBuffer.Range(document.content, position, length)).ToOutcome()
      ensures r.Fail? ==> deletedText == old(deletedText) && document.content == old(document.content)
      ensures r.Pass? ==> && deletedText == Some(old(document.content)[position..position + length])
                          && |deletedText.value| == length
                          && document.content == old(document.content)[..position] + old(document.content)[position + length..]
                          && |document.content| == |old(document.content)| - length
    {
      var range := document.GetTextRange(position, length);
      if range.Err? {
        return Fail(range.error);
      }
      deletedText := Some(range.value);
      r := document.DeleteText(position, length);
      TextBuffer.RangeThenDelete(old(document.content), position, length);
    }

    /** Puts `deletedText` back at `position`. */
    method Undo() returns (r: Outcome)
      modifies document`content
      ensures r == old(TextBuffer.Insert(document.content, position, InsertedText(deletedText))).ToOutcome()
      ensures document.content == old(TextBuffer.Insert(document.content, position, InsertedText(deletedText))).GetOr(old(document.content))
    {
      r := document.InsertText(position, InsertedText(deletedText));
    }
  }

  /** The Command interface: one of the two concrete commands. */
  datatype Command = InsertCmd(ins: InsertTextCommand) | DeleteCmd(del: DeleteTextCommand) {

    /** The document the command edits. */
    function Target(): Document {
      match this
      case InsertCmd(c) => c.document
      case DeleteCmd(c) => c.document
    }

    /** The command objects whose state Execute updates. */
    function Recorders(): set<DeleteTextCommand> {
      match this
      case InsertCmd(_) => {}
      case DeleteCmd(c) => {c}
    }

    /** The content Execute would leave, or the exception it would throw. */
    function ExecuteResult(): Result<string>
      reads Target()
    {
      match this
      case InsertCmd(c) => TextBuffer.Insert(c.document.content, c.position, c.text)
      case DeleteCmd(c) =>
        match TextBuffer.Range(c.document.content, c.position, c.length)
        case Err(e) => Err(e)
        case Ok(_) => TextBuffer.Delete(c.document.content, c.position, c.length)
    }

    /** What a delete command's `deletedText` holds after Execute: the range it
        read when the read succeeds, its previous value when the read throws. */
    function RecordedText(): Option<string>
      requires DeleteCmd?
      reads Target(), Recorders()
      ensures TextBuffer.Range(del.document.content, del.position, del.length).Ok? ==>
                RecordedText() == Some(del.document.content[del.position..del.position + del.length])
      ensures TextBuffer.Range(del.document.content, del.position, del.length).Err? ==> RecordedText() == del.deletedText
    {
      match TextBuffer.Range(del.document.content, del.position, del.length)
      case Ok(text) => Some(text)
      case Err(_) => del.deletedText
    }

    /** The content Undo would leave, or the exception it would throw. */
    function UndoResult(): Result<string>
      reads Target(), Recorders()
    {
      match this
      case InsertCmd(c) => TextBuffer.Delete(c.document.content, c.position, |c.text|)
      case DeleteCmd(c) => TextBuffer.Insert(c.document.content, c.position, InsertedText(c.deletedText))
    }

    method Execute() returns (r: Outcome)
      modifies Target()`content, Recorders()`deletedText
      ensures r == old(ExecuteResult()).ToOutcome()
      ensures Target().content == old(ExecuteResult()).GetOr(old(Target().content))
      ensures DeleteCmd? ==> del.deletedText == old(RecordedText())
    {
      match this
      case InsertCmd(c) =>
        r := c.Execute();
      case DeleteCmd(c) =>
        r := c.Execute();
        if r.Pass? {
          TextBuffer.RangeThenDelete(old(c.document.content), c.position, c.length);
        }
    }

    method Undo() returns (r: Outcome)
      modifies Target()`content
      ensures r == old(UndoResult()).ToOutcome()
      ensures Target().content == old(UndoResult()).GetOr(old(Target().content))
    {
      match this
      case InsertCmd(c) =>
        r := c.Undo();
      case DeleteCmd(c) =>
        r := c.Undo();
    }
  }

  /** For a valid position, Execute followed by Undo restores the content. */
  method InsertExecuteThenUndo(c: InsertTextCommand) returns (executed: Outcome, undone: Outcome)
    requires 0 <= c.position <= |c.document.content|
    requires c.position + |c.text| <= MaxInt
    modifies c.document`content
    ensures executed == Pass && undone == Pass
    ensures c.document.content == old(c.document.content)
  {
    TextBuffer.InsertThenDelete(c.document.content, c.position, c.text);
    executed := c.Execute();
    undone := c.Undo();
  }

  /** Execute, Undo, Execute leaves what a single Execute leaves: the command's
      position and text are fixed at construction. */
  method InsertExecuteUndoExecute(c: InsertTextCommand) returns (last: Outcome)
    requires TextBuffer.Insert(c.document.content, c.position, c.text).Ok? ==> c.position + |c.text| <= MaxInt
    modifies c.document`content
    ensures last == old(TextBuffer.Insert(c.document.content, c.position, c.text)).ToOutcome()
    ensures c.document.content == old(TextBuffer.Insert(c.document.content, c.position, c.text)).GetOr(old(c.document.content))
  {
    var first := c.Execute();
    if first.Pass? {
      TextBuffer.InsertThenDelete(old(c.document.content), c.position, c.text);
      var _ := c.Undo();
    }
    last := c.Execute();
  }

  /** For a readable range, Execute followed by Undo restores the content exactly,
      including the deleted text. */
  method DeleteExecuteThenUndo(c: DeleteTextCommand) returns (executed: Outcome, undone: Outcome)
    requires TextBuffer.Range(c.document.content, c.position, c.length).Ok?
    modifies c`deletedText, c.document`content
    ensures executed == Pass && undone == Pass
    ensures c.document.content == old(c.document.content)
    ensures c.deletedText == Some(old(c.document.content)[c.position..c.position + c.length])
  {
    TextBuffer.RangeDeleteInsert(c.document.content, c.position, c.length);
    executed := c.Execute();
    undone := c.Undo();
  }
}
