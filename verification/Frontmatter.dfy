/** Splitting a document into YAML front matter and body, and joining the two again. */
module Frontmatter {
  import opened Common
  import opened Bytes

  datatype Style = Style(newline: seq<Byte>, hasTrailingNewline: bool)

  datatype Document = Document(frontmatter: seq<Byte>, body: seq<Byte>, had: bool, style: Style)

  datatype SplitError = MissingClosingDelimiter

  const DASHES: seq<Byte> := [DASH, DASH, DASH]

  function DelimiterLine(newline: seq<Byte>): seq<Byte> {
    DASHES + newline
  }

  // ---------------------------------------------------------------- newline style

  /** CRLF exactly if the first line feed of the content follows a carriage return. */
  function NewlineOf(content: seq<Byte>): seq<Byte> {
    var first := Index(content, NEWLINE);
    if first.Some? && first.value > 0 && content[first.value - 1] == CR then CRLF else NEWLINE
  }

  function StyleOf(content: seq<Byte>): Style {
    Style(NewlineOf(content), content != [] && Last(content) == LF)
  }

  /** The scan of the source: it looks at two bytes at a time and stops at the first newline. */
  method DetectStyle(content: seq<Byte>) returns (style: Style)
    ensures style == StyleOf(content)
    ensures style.newline == if EndsInCrLf(content) then [13, 10] else [10]
    ensures style.hasTrailingNewline <==> content != [] && content[|content| - 1] == 10
  {
    var newline := DetectNewline(content);
    style := Style(newline, |content| > 0 && content[|content| - 1] == LF);
    NewlineIff(content);
  }

  method DetectNewline(content: seq<Byte>) returns (newline: seq<Byte>)
    ensures newline == NewlineOf(content)
  {
    newline := NEWLINE;
    var i := 0;
    while i + 1 < |content|
      invariant 0 <= i && (i == 0 || i < |content|) && newline == NEWLINE
      invariant forall k :: 0 <= k < i && k < |content| ==> content[k] != LF
      invariant i > 0 && content[i] == LF ==> content[i - 1] != CR
    {
      OccursLf(content, i + 1);
      OccursLf(content, i);
      if content[i] == CR && content[i + 1] == LF {
        assert forall k :: 0 <= k <= i ==> !OccursAt(content, NEWLINE, k) by { NoLineFeed(content, i + 1); }
        newline := CRLF;
        break;
      }
      if content[i] == LF {
        assert forall k :: 0 <= k < i ==> !OccursAt(content, NEWLINE, k) by { NoLineFeed(content, i); }
        break;
      }
      i := i + 1;
    }
    if newline == NEWLINE && i + 1 >= |content| {
      NoLineFeed(content, if content == [] then 0 else i);
    }
  }

  /** The first line feed follows a carriage return. */
  ghost predicate EndsInCrLf(content: seq<Byte>) {
    exists i :: CrLfAt(content, i)
  }

  ghost predicate CrLfAt(content: seq<Byte>, i: int) {
    0 < i < |content| && content[i] == 10 && content[i - 1] == 13 && forall j :: 0 <= j < i ==> content[j] != 10
  }

  lemma NewlineIff(content: seq<Byte>)
    ensures NewlineOf(content) == if EndsInCrLf(content) then [13, 10] else [10]
  {
    var first := Index(content, NEWLINE);
    if first.Some? {
      OccursLf(content, first.value);
      forall j | 0 <= j < first.value ensures content[j] != 10 {
        OccursLf(content, j);
      }
      if CrLfAt(content, first.value) {
        assert EndsInCrLf(content);
      }
    }
    if i :| CrLfAt(content, i) {
      OccursLf(content, i);
      NoLineFeed(content, i);
      assert first == Some(i);
    }
  }

  lemma OccursLf(content: seq<Byte>, i: nat)
    requires i < |content|
    ensures OccursAt(content, NEWLINE, i) <==> content[i] == LF
  {
    assert content[i..i + 1] == [content[i]];
  }

  lemma NoLineFeed(content: seq<Byte>, n: nat)
    requires n <= |content| && forall k :: 0 <= k < n ==> content[k] != LF
    ensures forall k :: 0 <= k < n ==> !OccursAt(content, NEWLINE, k)
  {
    forall k | 0 <= k < n ensures !OccursAt(content, NEWLINE, k) {
      assert k + 1 <= |content| && content[k..k + 1][0] == content[k];
    }
  }

  // ---------------------------------------------------------------- split and join

  /** Splits what follows the opening line at the first closing line. */
  function SplitRest(rest: seq<Byte>, newline: seq<Byte>, line: seq<Byte>): Option<(seq<Byte>, seq<Byte>)> {
    if HasPrefix(rest, line) then
      Some(([], rest[|line|..]))
    else
      var idx := Index(rest, newline + line);
      if idx.None? then
        None
      else
        Some((rest[..idx.value + |newline|], rest[idx.value + |newline + line|..]))
  }

  function Split(content: seq<Byte>): Result<Document, SplitError> {
    var style := StyleOf(content);
    var line := DelimiterLine(style.newline);
    if !HasPrefix(content, line) then
      Ok(Document([], content, false, style))
    else
      var parts := SplitRest(content[|line|..], style.newline, line);
      if parts.None? then
        Err(MissingClosingDelimiter)
      else
        Ok(Document(parts.value.0, parts.value.1, true, style))
  }

  function Join(d: Document): seq<Byte> {
    if !d.had then
      d.body
    else
      var line := DelimiterLine(if d.style.newline == [] then NEWLINE else d.style.newline);
      line + (d.frontmatter + line + d.body)
  }

  /** Front matter without a newline style is joined with line feeds. */
  lemma DefaultNewline(frontmatter: seq<Byte>, body: seq<Byte>, trailing: bool)
    ensures Join(Document(frontmatter, body, true, Style([], trailing))) ==
            [45, 45, 45, 10] + (frontmatter + [45, 45, 45, 10] + body)
  {
    assert DelimiterLine(NEWLINE) == [45, 45, 45, 10];
  }

  /** The front matters that a split can return: empty, or ending in a newline and closed by the first
      delimiter line. */
  predicate WellFormed(frontmatter: seq<Byte>, newline: seq<Byte>, line: seq<Byte>) {
    || frontmatter == []
    || (&& !HasPrefix(frontmatter + line, line)
        && |frontmatter| >= |newline|
        && Index(frontmatter + line, newline + line) == Some(|frontmatter| - |newline|))
  }

  lemma PrefixOfExtension(head: seq<Byte>, tail: seq<Byte>, pattern: seq<Byte>)
    requires |pattern| <= |head|
    ensures HasPrefix(head + tail, pattern) <==> HasPrefix(head, pattern)
  {
    assert (head + tail)[..|pattern|] == head[..|pattern|];
  }

  lemma OccursInExtension(head: seq<Byte>, tail: seq<Byte>, pattern: seq<Byte>, k: nat)
    requires k + |pattern| <= |head|
    ensures OccursAt(head + tail, pattern, k) <==> OccursAt(head, pattern, k)
  {
    assert (head + tail)[k..k + |pattern|] == head[k..k + |pattern|];
  }

  /** An occurrence that ends with `head` is the first one of `head` exactly if it is of any extension. */
  lemma IndexOfExtension(head: seq<Byte>, tail: seq<Byte>, pattern: seq<Byte>)
    requires |pattern| <= |head|
    ensures Index(head + tail, pattern) == Some(|head| - |pattern|) <==>
            Index(head, pattern) == Some(|head| - |pattern|)
  {
    forall k: nat | k + |pattern| <= |head|
      ensures OccursAt(head + tail, pattern, k) <==> OccursAt(head, pattern, k)
    {
      OccursInExtension(head, tail, pattern, k);
    }
  }

  lemma SplitRestIsInverse(rest: seq<Byte>, newline: seq<Byte>, line: seq<Byte>)
    requires SplitRest(rest, newline, line).Some?
    ensures var (frontmatter, body) := SplitRest(rest, newline, line).value;
            rest == frontmatter + line + body && WellFormed(frontmatter, newline, line)
  {
    var (frontmatter, body) := SplitRest(rest, newline, line).value;
    if HasPrefix(rest, line) {
      assert rest == line + body;
    } else {
      var idx := Index(rest, newline + line).value;
      assert rest[idx..idx + |newline + line|] == newline + line;
      assert rest == rest[..idx] + (newline + line) + body;
      assert frontmatter == rest[..idx] + newline;
      var head := frontmatter + line;
      assert rest == head + body;
      PrefixOfExtension(head, body, line);
      IndexOfExtension(head, body, newline + line);
    }
  }

  lemma JoinRestIsInverse(frontmatter: seq<Byte>, body: seq<Byte>, newline: seq<Byte>, line: seq<Byte>)
    requires WellFormed(frontmatter, newline, line)
    ensures SplitRest(frontmatter + line + body, newline, line) == Some((frontmatter, body))
  {
    var head := frontmatter + line;
    var rest := head + body;
    PrefixOfExtension(head, body, line);
    if frontmatter == [] {
      assert rest[|line|..] == body;
    } else {
      IndexOfExtension(head, body, newline + line);
      var end := |frontmatter|;
      assert rest[..end] == frontmatter && rest[end + |line|..] == body;
    }
  }

  /** Exactly which documents are accepted, and what their parts are. A document that does not start with a
      delimiter line is all body. Behind an opening line, the front matter ends at the first delimiter line,
      which is at the start or behind a newline; without one, the document is refused. */
  lemma SplitIff(content: seq<Byte>)
    ensures var newline := if EndsInCrLf(content) then [13, 10] else [10];
            var line := [45, 45, 45] + newline;
            if !HasPrefix(content, line) then
              Split(content).Ok? && !Split(content).value.had
              && Split(content).value.frontmatter == [] && Split(content).value.body == content
            else
              var rest := content[|line|..];
              && (Split(content).Err? <==>
                  !HasPrefix(rest, line) && forall k: nat :: !OccursAt(rest, newline + line, k))
              && (Split(content).Ok? ==>
                    Split(content).value.had && ClosedIn(rest, newline, line, Split(content).value))
  {
    NewlineIff(content);
    var newline := NewlineOf(content);
    var line := DelimiterLine(newline);
    if HasPrefix(content, line) && Split(content).Ok? && !HasPrefix(content[|line|..], line) {
      var rest := content[|line|..];
      assert ClosedAt(rest, newline, line, Split(content).value, Index(rest, newline + line).value);
    }
  }

  /** The front matter of the document ends before the first delimiter line of what follows the opening. */
  ghost predicate ClosedIn(rest: seq<Byte>, newline: seq<Byte>, line: seq<Byte>, d: Document) {
    if HasPrefix(rest, line) then d.frontmatter == [] && d.body == rest[|line|..]
    else exists k: nat :: ClosedAt(rest, newline, line, d, k)
  }

  ghost predicate ClosedAt(rest: seq<Byte>, newline: seq<Byte>, line: seq<Byte>, d: Document, k: nat) {
    && OccursAt(rest, newline + line, k) && (forall j: nat :: j < k ==> !OccursAt(rest, newline + line, j))
    && d.frontmatter == rest[..k + |newline|] && d.body == rest[k + |newline| + |line|..]
  }

  /** No byte is lost: joining what was split gives the document back. */
  lemma JoinSplit(content: seq<Byte>)
    requires Split(content).Ok?
    ensures Join(Split(content).value) == content
  {
    var style := StyleOf(content);
    var line := DelimiterLine(style.newline);
    if HasPrefix(content, line) {
      var rest := content[|line|..];
      SplitRestIsInverse(rest, style.newline, line);
      assert content == line + rest;
      JoinedText(Split(content).value, line, rest);
    }
  }

  lemma JoinedText(d: Document, line: seq<Byte>, rest: seq<Byte>)
    requires d.had && line == DelimiterLine(d.style.newline) && d.style.newline != []
    requires rest == d.frontmatter + line + d.body
    ensures Join(d) == line + rest
  {
  }

  /** The newline style of a document with front matter is that of its opening line. */
  lemma OpeningLineDecides(newline: seq<Byte>, rest: seq<Byte>)
    requires newline == NEWLINE || newline == CRLF
    ensures NewlineOf(DelimiterLine(newline) + rest) == newline
  {
    var content := DelimiterLine(newline) + rest;
    var at := 2 + |newline|;
    NoLineFeed(content, at);
    assert content[at..at + 1] == NEWLINE;
    assert OccursAt(content, NEWLINE, at);
    assert Index(content, NEWLINE) == Some(at);
  }

  /** Splitting a joined document gives back well-formed front matter, its newline and any body. */
  lemma SplitJoin(frontmatter: seq<Byte>, body: seq<Byte>, style: Style)
    requires style.newline == NEWLINE || style.newline == CRLF
    requires WellFormed(frontmatter, style.newline, DelimiterLine(style.newline))
    ensures var content := Join(Document(frontmatter, body, true, style));
            && Split(content) == Ok(Document(frontmatter, body, true, StyleOf(content)))
            && StyleOf(content).newline == style.newline
  {
    var line := DelimiterLine(style.newline);
    var rest := frontmatter + line + body;
    OpeningLineDecides(style.newline, rest);
    assert (line + rest)[..|line|] == line && (line + rest)[|line|..] == rest;
    JoinRestIsInverse(frontmatter, body, style.newline, line);
  }

  lemma SplitWellFormed(content: seq<Byte>)
    requires Split(content).Ok? && Split(content).value.had
    ensures var d := Split(content).value;
            WellFormed(d.frontmatter, d.style.newline, DelimiterLine(d.style.newline))
  {
    var style := StyleOf(content);
    var line := DelimiterLine(style.newline);
    SplitRestIsInverse(content[|line|..], style.newline, line);
  }
}
