/** The STOMP message records (dto/DocumentEditMessage.java and the cursor
    message): plain values whose sender fields start out null. */
module Messages {
  import opened Exceptions
  import opened JavaLang

  datatype DocumentEditMessage = DocumentEditMessage(
    userId: Option<int>,
    username: Option<string>,
    operation: string,   // "insert", "delete" or "replace"; anything else edits nothing
    position: Int,
    text: string,
    length: Int,         // for "delete"
    timestamp: int)      // set by the sender's clock; never changed by the core

  datatype CursorPositionMessage = CursorPositionMessage(
    userId: Option<int>,
    username: Option<string>,
    position: Int)
}
