/** pattern/factory: the export-format dispatch of DocumentExporterFactory and the
    pure pieces of PDFExporter (its content type, extension, HTML escaping and the
    HTML page its renderer is fed). */
module Export {
  import opened Exceptions
  import opened JavaLang

  /** The three DocumentExporter implementations; they carry no state. */
  datatype Exporter = PDFExporter | HTMLExporter | DocxExporter
  {
    /** The MIME type: a text type for HTML, an application type otherwise. */
    function ContentType(): (t: string)
      ensures this == HTMLExporter ==> |t| > 5 && t[..5] == "text/"
      ensures this != HTMLExporter ==> |t| > 12 && t[..12] == "application/"
    {
      match this
      case PDFExporter => "application/pdf"
      case HTMLExporter => "text/html"
      case DocxExporter =>
        var subtype := "vnd.openxmlformats-officedocument.wordprocessingml.document";
        assert ("application/" + subtype)[..12] == "application/";
        "application/" + subtype
    }

    /** The extension: lower-case letters only, so the factory's lower-casing keeps it. */
    function FileExtension(): (ext: string)
      ensures |ext| >= 3 && ToLowerCase(ext) == ext
    {
      match this
      case PDFExporter => "pdf"
      case HTMLExporter => "html"
      case DocxExporter => "docx"
    }
  }

  /** `createExporter`: a switch on the lower-cased format. */
  function CreateExporter(format: string): (r: Result<Exporter>)
    ensures r.Ok? <==> ToLowerCase(format) in {"pdf", "html", "docx"}
    ensures r.Ok? ==> r.value.FileExtension() == ToLowerCase(format)
    ensures r.Err? ==> r.error == UnsupportedExportFormat
  {
    var key := ToLowerCase(format);
    if key == "pdf" then Ok(PDFExporter)
    else if key == "html" then Ok(HTMLExporter)
    else if key == "docx" then Ok(DocxExporter)
    else Err(UnsupportedExportFormat)
  }

  /** The dispatch ignores letter case: lower-casing the format first changes nothing. */
  lemma CreateExporterCaseInsensitive(format: string)
    ensures CreateExporter(ToLowerCase(format)) == CreateExporter(format)
  {
    ToLowerCaseIdempotent(format);
  }

  /** Each exporter is what its own extension dispatches to, and no two share an
      extension or a content type. */
  lemma CreateExporterFromExtension(e: Exporter, f: Exporter)
    ensures CreateExporter(e.FileExtension()) == Ok(e)
    ensures e.FileExtension() == f.FileExtension() <==> e == f
    ensures e.ContentType() == f.ContentType() <==> e == f
  {
    var ext := e.FileExtension();
    assert ToLowerCase(ext) == ext by {
      assert forall i :: 0 <= i < |ext| ==> 'a' <= ext[i] <= 'z';
    }
    if e != f {
      assert e.FileExtension()[0] != f.FileExtension()[0] || |e.FileExtension()| != |f.FileExtension()|;
      assert e.ContentType()[0] != f.ContentType()[0] || |e.ContentType()| != |f.ContentType()|;
    }
  }

  // ----------------------------------------------------------------- escapeHtml

  /** The five characters escapeHtml rewrites. */
  const Specials: string := "&<>\"'"

  /** A string with no character that could open a tag or close an attribute value. */
  predicate NoMarkup(s: string) {
    forall c :: c in s ==> c !in "<>\"'"
  }

  /** The entity escapeHtml writes for one character. */
  function EscapeChar(c: char): string {
    if c == '&' then "&amp;"
    else if c == '<' then "&lt;"
    else if c == '>' then "&gt;"
    else if c == '"' then "&quot;"
    else if c == '\'' then "&#39;"
    else [c]
  }

  /** Reference definition: every character escaped on its own. */
  function EscapeEach(s: string): string {
    if s == [] then [] else EscapeChar(s[0]) + EscapeEach(s[1..])
  }

  /** The chain of `replace` calls, in the source's order. */
  function ReplaceChain(s: string): string {
    ReplaceChar(ReplaceChar(ReplaceChar(ReplaceChar(ReplaceChar(s, '&', "&amp;"), '<', "&lt;"), '>', "&gt;"), '"', "&quot;"), '\'', "&#39;")
  }

  /** `escapeHtml`; null gives the empty string. */
  function EscapeHtml(input: Option<string>): (r: string)
    ensures input.None? ==> r == ""
    ensures input.Some? ==> |r| >= |input.value|
    ensures input.Some? && (forall c :: c in input.value ==> c !in Specials) ==> r == input.value
  {
    match input
    case None => ""
    case Some(s) => ReplaceChain(s)
  }

  lemma ReplaceChainAppend(a: string, b: string)
    ensures ReplaceChain(a + b) == ReplaceChain(a) + ReplaceChain(b)
  {
    var a1, b1 := ReplaceChar(a, '&', "&amp;"), ReplaceChar(b, '&', "&amp;");
    ReplaceCharAppend(a, b, '&', "&amp;");
    var a2, b2 := ReplaceChar(a1, '<', "&lt;"), ReplaceChar(b1, '<', "&lt;");
    ReplaceCharAppend(a1, b1, '<', "&lt;");
    var a3, b3 := ReplaceChar(a2, '>', "&gt;"), ReplaceChar(b2, '>', "&gt;");
    ReplaceCharAppend(a2, b2, '>', "&gt;");
    var a4, b4 := ReplaceChar(a3, '"', "&quot;"), ReplaceChar(b3, '"', "&quot;");
    ReplaceCharAppend(a3, b3, '"', "&quot;");
    ReplaceCharAppend(a4, b4, '\'', "&#39;");
  }

  lemma ReplaceChainChar(c: char)
    ensures ReplaceChain([c]) == EscapeChar(c)
  {
  }

  /** Because `&` is replaced first, the entities later steps introduce are never
      rewritten again: the chain equals the per-character escape. */
  lemma {:induction false} EscapeHtmlPerCharacter(s: string)
    ensures EscapeHtml(Some(s)) == EscapeEach(s)
    decreases |s|
  {
    if s != [] {
      assert s == [s[0]] + s[1..];
      ReplaceChainAppend([s[0]], s[1..]);
      ReplaceChainChar(s[0]);
      EscapeHtmlPerCharacter(s[1..]);
    }
  }

  lemma {:induction false} EscapeEachNoMarkup(s: string)
    ensures NoMarkup(EscapeEach(s))
    decreases |s|
  {
    if s != [] {
      EscapeEachNoMarkup(s[1..]);
      var head := EscapeChar(s[0]);
      assert NoMarkup(head);
      forall c | c in head + EscapeEach(s[1..])
        ensures c !in "<>\"'"
      {
        if c !in head {
          assert c in EscapeEach(s[1..]);
        }
      }
    }
  }

  /** The escaped text holds no `<`, `>`, `"` or `'`. */
  lemma EscapeHtmlNoMarkup(input: Option<string>)
    ensures NoMarkup(EscapeHtml(input))
  {
    if input.Some? {
      EscapeHtmlPerCharacter(input.value);
      EscapeEachNoMarkup(input.value);
    }
  }

  /** Reads the five entities back; any other character stands for itself. */
  function Unescape(s: string): string
    decreases |s|
  {
    if s == [] then []
    else if s[0] != '&' || |s| < 4 then [s[0]] + Unescape(s[1..])
    else if |s| >= 5 && s[1] == 'a' && s[2] == 'm' && s[3] == 'p' && s[4] == ';' then "&" + Unescape(s[5..])
    else if s[1] == 'l' && s[2] == 't' && s[3] == ';' then "<" + Unescape(s[4..])
    else if s[1] == 'g' && s[2] == 't' && s[3] == ';' then ">" + Unescape(s[4..])
    else if |s| >= 6 && s[1] == 'q' && s[2] == 'u' && s[3] == 'o' && s[4] == 't' && s[5] == ';' then "\"" + Unescape(s[6..])
    else if |s| >= 5 && s[1] == '#' && s[2] == '3' && s[3] == '9' && s[4] == ';' then "'" + Unescape(s[5..])
    else [s[0]] + Unescape(s[1..])
  }

  lemma UnescapeEscapeChar(c: char, rest: string)
    ensures Unescape(EscapeChar(c) + rest) == [c] + Unescape(rest)
  {
    var s := EscapeChar(c) + rest;
    if c == '&' {
      assert s[5..] == rest;
    } else if c == '<' {
      assert s[4..] == rest;
    } else if c == '>' {
      assert s[4..] == rest;
    } else if c == '"' {
      assert s[6..] == rest;
    } else if c == '\'' {
      assert s[5..] == rest;
    } else {
      assert s[0] == c && s[1..] == rest;
    }
  }

  /** Escaping loses nothing: the entities read back to the original text, so two
      different inputs never escape to the same output. */
  lemma {:induction false} EscapeHtmlInvertible(s: string)
    ensures Unescape(EscapeHtml(Some(s))) == s
  {
    EscapeHtmlPerCharacter(s);
    EscapeEachInvertible(s);
  }

  lemma {:induction false} EscapeEachInvertible(s: string)
    ensures Unescape(EscapeEach(s)) == s
    decreases |s|
  {
    if s != [] {
      UnescapeEscapeChar(s[0], EscapeEach(s[1..]));
      EscapeEachInvertible(s[1..]);
      assert s == [s[0]] + s[1..];
    }
  }

  // ------------------------------------------------------------------- wrapHtml

  const DefaultTitle: string := "Untitled Document"
  const DocType: string := "<!DOCTYPE html>\n"
  const TitleOpen: string := "<html>\n<head>\n    <meta charset=\"UTF-8\" />\n    <title>"
  const TitleClose: string :=
    "</title>\n" +
    "    <style>\n" +
    "        body { font-family: Arial, sans-serif; margin: 2cm; }\n" +
    "        pre { background-color: #f0f0f0; padding: 10px; border-radius: 5px; overflow: auto; }\n" +
    "        code { font-family: monospace; }\n" +
    "        h1, h2, h3, h4, h5, h6 { color: #333; }\n" +
    "        a { color: #0066cc; }\n" +
    "        img { max-width: 100%; height: auto; }\n" +
    "    </style>\n" +
    "</head>\n"
  const BodyOpen: string := "<body>\n"
  const BodyClose: string := "</body>\n</html>"

  /** The default title has nothing to escape. */
  lemma DefaultTitleKept()
    ensures EscapeHtml(Some(DefaultTitle)) == DefaultTitle
  {
    var t := DefaultTitle;
    assert forall i :: 0 <= i < |t| ==> t[i] !in Specials;
    assert forall c :: c in t ==> c !in Specials;
  }

  /** The title as it enters the page: escaped, with a default for null. */
  function SafeTitle(title: Option<string>): (t: string)
    ensures title.None? ==> t == DefaultTitle
    ensures title.Some? ==> t == EscapeHtml(title)
    ensures NoMarkup(t)
  {
    EscapeHtmlNoMarkup(Some(title.GetOr(DefaultTitle)));
    if title.None? then DefaultTitleKept(); DefaultTitle else EscapeHtml(title)
  }

  lemma PageLayout(docType: string, titleOpen: string, title: string, titleClose: string,
                   bodyOpen: string, content: string, bodyClose: string, page: string)
    requires page == docType + titleOpen + title + titleClose + bodyOpen + content + bodyClose
    ensures |page| == |docType| + |titleOpen| + |title| + |titleClose| + |bodyOpen| + |content| + |bodyClose|
    ensures page[..|docType|] == docType
    ensures page[|docType| + |titleOpen|..][..|title|] == title
    ensures page[|page| - |bodyClose| - |content| - |bodyOpen|..] == bodyOpen + content + bodyClose
  {
    assert page == docType + (titleOpen + (title + (titleClose + (bodyOpen + content + bodyClose))));
    assert page[|docType| + |titleOpen|..] == title + (titleClose + (bodyOpen + content + bodyClose));
    assert page == (docType + titleOpen + title + titleClose) + (bodyOpen + content + bodyClose);
  }

  /** `wrapHtml`: the page starts with the doctype, carries the escaped title
      right after the fixed head, and ends with the content, unescaped, between
      the body tags. */
  function WrapHtml(content: string, title: Option<string>): (r: string)
    ensures |r| == |DocType| + |TitleOpen| + |SafeTitle(title)| + |TitleClose| + |BodyOpen| + |content| + |BodyClose|
    ensures r[..|DocType|] == DocType
    ensures r[|DocType| + |TitleOpen|..][..|SafeTitle(title)|] == SafeTitle(title)
    ensures r[|r| - |BodyClose| - |content| - |BodyOpen|..] == BodyOpen + content + BodyClose
  {
    var page := DocType + TitleOpen + SafeTitle(title) + TitleClose + BodyOpen + content + BodyClose;
    PageLayout(DocType, TitleOpen, SafeTitle(title), TitleClose, BodyOpen, content, BodyClose, page);
    page
  }
}
