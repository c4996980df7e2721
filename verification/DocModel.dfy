/** Parsed documents: edits of the body, and the mapping of body lines to file lines. */
module DocModel {
  import opened Common
  import opened Bytes
  import opened Frontmatter
  import opened Edits
  import Lines

  datatype ParsedDoc = ParsedDoc(
    original: seq<Byte>, fmRaw: seq<Byte>, body: seq<Byte>, hadFM: bool, style: Style)
  {
    /** Re-joins front matter and body. */
    function ToBytes(): seq<Byte> {
      Join(Document(fmRaw, body, hadFM, style))
    }

    /** Added to a body line number, gives the file line number. */
    function LineOffset(): nat {
      if !hadFM then 0 else 2 + Lines.CountLineFeeds(fmRaw)
    }
  }

  function Parse(content: seq<Byte>): Result<ParsedDoc, SplitError> {
    match Split(content)
    case Ok(d) => Ok(ParsedDoc(content, d.frontmatter, d.body, d.had, d.style))
    case Err(e) => Err(e)
  }

  /** Every document that can be split is parsed, into the same parts. */
  lemma ParsesWhatSplits(content: seq<Byte>)
    ensures Parse(content).Ok? <==> Split(content).Ok?
    ensures Parse(content).Ok? ==>
              var p, d := Parse(content).value, Split(content).value;
              && p.original == content && p.fmRaw == d.frontmatter && p.body == d.body
              && p.hadFM == d.had && p.style == d.style
  {
  }

  /** The document is what parsing its original bytes gives. */
  predicate Parsed(d: ParsedDoc) {
    Parse(d.original) == Ok(d)
  }

  lemma ParseKeepsBytes(d: ParsedDoc)
    requires Parsed(d)
    ensures d.ToBytes() == d.original
  {
    JoinSplit(d.original);
  }

  /** Edits change the body only: the result is the document joined with the spliced body, and for a
      document with front matter, parsing the result gives back the same raw front matter, the same
      newline style and exactly that body. */
  method ApplyBodyEdits(d: ParsedDoc, edits: seq<Edit>)
    returns (r: Result<seq<Byte>, EditError>, ghost sorted: seq<Edit>)
    requires Parsed(d)
    ensures multiset(sorted) == multiset(edits) && Sorted(sorted)
    ensures r.Ok? <==> Acceptable(|d.body|, edits)
    ensures r.Ok? ==> Ascending(|d.body|, Reverse(sorted), 0)
    ensures r.Ok? && !d.hadFM ==> r.value == Splice(d.body, Reverse(sorted), 0)
    ensures r.Ok? && d.hadFM ==>
              var p := Parse(r.value);
              && p.Ok? && p.value.hadFM && p.value.fmRaw == d.fmRaw
              && p.value.style.newline == d.style.newline
              && p.value.body == Splice(d.body, Reverse(sorted), 0)
              && p.value.LineOffset() == d.LineOffset()
  {
    var updated;
    updated, sorted := ApplyEdits(d.body, edits);
    if updated.Err? {
      return Err(updated.error), sorted;
    }
    if d.hadFM {
      SplitWellFormed(d.original);
      SplitJoin(d.fmRaw, updated.value, d.style);
    }
    return Ok(Join(Document(d.fmRaw, updated.value, d.hadFM, d.style))), sorted;
  }

  lemma DelimiterIsOneLine(newline: seq<Byte>)
    requires newline == NEWLINE || newline == CRLF
    ensures var line := DelimiterLine(newline); Last(line) == LF && Lines.CountLineFeeds(line) == 1
  {
    var line := DelimiterLine(newline);
    var front := line[..|line| - 1];
    assert line == front + NEWLINE;
    Lines.CountAppend(front, NEWLINE);
    Lines.CountOneLine(front);
    assert Lines.CountLineFeeds(NEWLINE) == 1;
  }

  /** Front matter between its two delimiter lines. */
  function Header(line: seq<Byte>, raw: seq<Byte>): seq<Byte> {
    line + (raw + line)
  }

  lemma HeaderEnds(line: seq<Byte>, raw: seq<Byte>, body: seq<Byte>)
    requires line != []
    ensures line + (raw + line + body) == Header(line, raw) + body
    ensures Header(line, raw) != [] && Last(Header(line, raw)) == Last(line)
  {
  }

  lemma HeaderCount(line: seq<Byte>, raw: seq<Byte>)
    requires Lines.CountLineFeeds(line) == 1
    ensures Lines.CountLineFeeds(Header(line, raw)) == 2 + Lines.CountLineFeeds(raw)
  {
    Lines.CountAppend(line, raw + line);
    Lines.CountAppend(raw, line);
  }

  lemma OriginalText(d: ParsedDoc)
    requires Parsed(d)
    ensures d.original == if d.hadFM then Header(DelimiterLine(d.style.newline), d.fmRaw) + d.body else d.body
  {
    ParseKeepsBytes(d);
    if d.hadFM {
      var line := DelimiterLine(d.style.newline);
      var rest := d.fmRaw + line + d.body;
      JoinedText(Document(d.fmRaw, d.body, true, d.style), line, rest);
      HeaderEnds(line, d.fmRaw, d.body);
    }
  }

  /** The bytes before the body: whole lines, as many as the line offset. */
  lemma HeaderLines(d: ParsedDoc) returns (header: seq<Byte>)
    requires Parsed(d)
    ensures d.original == header + d.body
    ensures header == [] || Last(header) == LF
    ensures Lines.CountLineFeeds(header) == d.LineOffset()
  {
    OriginalText(d);
    if d.hadFM {
      var line := DelimiterLine(d.style.newline);
      header := Header(line, d.fmRaw);
      DelimiterIsOneLine(d.style.newline);
      HeaderEnds(line, d.fmRaw, d.body);
      HeaderCount(line, d.fmRaw);
    } else {
      header := [];
      assert header + d.body == d.body;
    }
  }

  /** Every body line is found in the file `LineOffset()` lines further down, with the same bytes: for
      both newline styles, and with or without a final newline. */
  lemma LineMapping(d: ParsedDoc, n: nat)
    requires Parsed(d)
    ensures Lines.MapsLine(Lines.Split(d.original), Lines.Split(d.body), d.LineOffset(), |d.original| - |d.body|, n)
  {
    var header := HeaderLines(d);
    var above := Lines.LinesBehindPrefix(header, d.body);
    Lines.LineBehind(above, Lines.Split(d.body), n);
  }
}
