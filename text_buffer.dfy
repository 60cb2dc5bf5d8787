/** The text operations behind Document.insertText, deleteText and getTextRange:
    what `StringBuilder.insert`, `StringBuilder.delete` and the bounds-checked
    `substring` do to a document's content. */
module TextBuffer {
  import opened Exceptions
  import opened JavaLang

  /** `new StringBuilder(content).insert(position, text)`: fails outside
      0..|content|, otherwise puts `text` at `position`. */
  function Insert(content: string, position: int, text: string): (r: Result<string>)
    ensures r.Ok? <==> 0 <= position <= |content|
    ensures r.Err? ==> r.error == IndexOutOfBounds
    ensures r.Ok? ==> |r.value| == |content| + |text|
    ensures r.Ok? ==> (r.value[..position] == content[..position]
                       && r.value[position..position + |text|] == text
                       && r.value[position + |text|..] == content[position..])
  {
    if 0 <= position <= |content| then Ok(content[..position] + text + content[position..])
    else Err(IndexOutOfBounds)
  }

  /** `new StringBuilder(content).delete(position, position + length)` with the
      end computed in Java `int` arithmetic: an end past the content is clamped
      to its length, and a start below zero or past the (clamped) end throws. */
  function Delete(content: string, position: Int, length: Int): (r: Result<string>)
    // the ordinary case: the range lies inside the content
    ensures 0 <= position && 0 <= length && position + length <= |content| && position + length <= MaxInt
            ==> r == Ok(content[..position] + content[position + length..])
    // an end past the content is clamped: everything from position on goes
    ensures 0 <= position <= |content| && 0 <= length && |content| < position + length <= MaxInt
            ==> r == Ok(content[..position])
    // the failing cases
    ensures position < 0 || position > |content| || length < 0 ==> r == Err(IndexOutOfBounds)
    ensures position + length > MaxInt ==> r == Err(IndexOutOfBounds)
  {
    var end := AddInt(position, length);
    var stop := if end > |content| then |content| else end;
    if position < 0 || position > stop then Err(IndexOutOfBounds)
    else
      assert content[..position] + content[|content|..] == content[..position];
      Ok(content[..position] + content[stop..])
  }

  /** Document.getTextRange: the guard `position < 0 || position + length > length()`
      (in `int` arithmetic) followed by `substring(position, position + length)`. */
  function Range(content: string, position: Int, length: Int): (r: Result<string>)
    ensures r.Ok? <==> 0 <= position && 0 <= length && position + length <= |content|
                       && position + length <= MaxInt
    ensures r.Err? ==> r.error == IndexOutOfBounds
    ensures r.Ok? ==> |r.value| == length && r.value == content[position..position + length]
  {
    var end := AddInt(position, length);
    if position < 0 || end > |content| then Err(IndexOutOfBounds)
    else if end < position then Err(IndexOutOfBounds)  // substring's own begin > end check
    else Ok(content[position..end])
  }

  /** Inserting text and then deleting as many characters at the same place
      gives back the original content. */
  lemma InsertThenDelete(content: string, position: Int, text: string)
    requires 0 <= position <= |content|
    requires position + |text| <= MaxInt
    ensures Insert(content, position, text).Ok?
    ensures Delete(Insert(content, position, text).value, position, |text|) == Ok(content)
  {
    var after := Insert(content, position, text).value;
    assert after[..position] + after[position + |text|..] == content;
  }

  /** Reading a range, deleting it and inserting the text read at the same
      place gives back the original content. */
  lemma RangeDeleteInsert(content: string, position: Int, length: Int)
    requires Range(content, position, length).Ok?
    ensures Delete(content, position, length).Ok?
    ensures Insert(Delete(content, position, length).value, position,
                   Range(content, position, length).value) == Ok(content)
  {
    var removed := content[position..position + length];
    assert content[..position] + removed + content[position + length..] == content;
  }

  /** Whenever the range can be read, deleting it succeeds and removes exactly
      the characters read. */
  lemma RangeThenDelete(content: string, position: Int, length: Int)
    requires Range(content, position, length).Ok?
    ensures Delete(content, position, length).Ok?
    ensures |Delete(content, position, length).value| == |content| - length
    ensures content == Delete(content, position, length).value[..position]
                       + Range(content, position, length).value
                       + Delete(content, position, length).value[position..]
  {
    assert content[..position] + content[position..position + length] + content[position + length..] == content;
  }
}
