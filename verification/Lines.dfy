/** Lines of a document: the pieces between line feeds, and the byte range of each. */
module Lines {
  import opened Common
  import opened Bytes
  import Separated


  predicate OneLine(s: seq<Byte>) {
    LF !in s
  }

  predicate AllLines(lines: seq<seq<Byte>>) {
    Separated.AllFree(lines, LF)
  }

  /** The content cut at every line feed; there is always at least one line. */
  function Split(content: seq<Byte>): (lines: seq<seq<Byte>>)
    ensures lines != []
  {
    Separated.Split(content, LF)
  }

  /** Lines joined by line feeds. */
  function Unsplit(lines: seq<seq<Byte>>): seq<Byte>
    requires lines != []
  {
    Separated.Unsplit(lines, LF)
  }

  /** Lines that are each closed by a line feed. */
  function Closed(lines: seq<seq<Byte>>): seq<Byte> {
    Separated.Closed(lines, LF)
  }

  /** Where line `n`, counted from 0, starts. */
  function StartOf(lines: seq<seq<Byte>>, n: nat): nat
    requires n <= |lines|
  {
    |Closed(lines[..n])|
  }

  function CountLineFeeds(s: seq<Byte>): nat {
    if s == [] then 0 else (if s[0] == LF then 1 else 0) + CountLineFeeds(s[1..])
  }

  // ---------------------------------------------------------------- lines of a content

  /** What follows a line: nothing, or a line feed and the remaining lines. */
  function Following(lines: seq<seq<Byte>>): seq<Byte> {
    if lines == [] then [] else NEWLINE + Unsplit(lines)
  }

  /** The content around line `n`. */
  lemma AroundLine(lines: seq<seq<Byte>>, n: nat)
    requires n < |lines|
    ensures Unsplit(lines) == Closed(lines[..n]) + lines[n] + Following(lines[n + 1..])
  {
    assert lines == lines[..n] + lines[n..];
    Separated.UnsplitAppend(lines[..n], lines[n..], LF);
    FirstAndFollowing(lines, n);
    Assoc(Closed(lines[..n]), lines[n], Following(lines[n + 1..]));
  }

  lemma FirstAndFollowing(lines: seq<seq<Byte>>, n: nat)
    requires n < |lines|
    ensures Unsplit(lines[n..]) == lines[n] + Following(lines[n + 1..])
  {
    var rest := lines[n..];
    assert rest[0] == lines[n] && rest[1..] == lines[n + 1..];
    if |rest| > 1 {
      Assoc(rest[0], NEWLINE, Unsplit(rest[1..]));
    }
  }

  /** The content consists of exactly these lines. */
  ghost predicate HasLines(content: seq<Byte>, lines: seq<seq<Byte>>) {
    lines != [] && AllLines(lines) && content == Unsplit(lines)
  }

  lemma SplitIffHasLines(content: seq<Byte>, lines: seq<seq<Byte>>)
    ensures HasLines(content, lines) <==> lines == Split(content)
  {
    Separated.UnsplitSplit(content, LF);
    if HasLines(content, lines) {
      Separated.SplitUnsplit(lines, LF);
    }
  }

  lemma LineAt(content: seq<Byte>, lines: seq<seq<Byte>>, n: nat)
    requires HasLines(content, lines) && n < |lines|
    ensures var start, end := StartOf(lines, n), StartOf(lines, n) + |lines[n]|;
            && end <= |content| && content[start..end] == lines[n]
            && content[..start] == Closed(lines[..n]) && content[end..] == Following(lines[n + 1..])
  {
    AroundLine(lines, n);
  }

  /** Replacing the bytes of one line by a line replaces that line and keeps all others. */
  lemma ReplaceLine(content: seq<Byte>, lines: seq<seq<Byte>>, n: nat, line: seq<Byte>)
    requires HasLines(content, lines) && n < |lines| && OneLine(line)
    ensures var start, end := StartOf(lines, n), StartOf(lines, n) + |lines[n]|;
            end <= |content| && HasLines(content[..start] + line + content[end..], lines[n := line])
  {
    var changed := lines[n := line];
    LineAt(content, lines, n);
    AroundLine(changed, n);
    assert changed[..n] == lines[..n] && changed[n + 1..] == lines[n + 1..];
  }

  // ---------------------------------------------------------------- finding a line

  lemma NextLine(lines: seq<seq<Byte>>, n: nat)
    requires AllLines(lines) && n < |lines|
    ensures Separated.IndexOf(Unsplit(lines[n..]), LF) == |lines[n]|
    ensures |lines[n]| == |Unsplit(lines[n..])| <==> n + 1 == |lines|
    ensures n + 1 < |lines| ==> Unsplit(lines[n..])[|lines[n]| + 1..] == Unsplit(lines[n + 1..])
    ensures StartOf(lines, n + 1) == StartOf(lines, n) + |lines[n]| + 1
  {
    var rest := lines[n..];
    assert rest[0] == lines[n] && lines[n] in lines;
    if n + 1 < |lines| {
      assert rest[1..] == lines[n + 1..];
      Separated.FirstPiece(lines[n], Unsplit(lines[n + 1..]), LF);
    } else {
      assert Unsplit(rest) == lines[n];
      Separated.OnePiece(lines[n], LF);
    }
    NextStart(lines, n);
  }

  lemma NextStart(lines: seq<seq<Byte>>, n: nat)
    requires n < |lines|
    ensures StartOf(lines, n + 1) == StartOf(lines, n) + |lines[n]| + 1
  {
    Separated.ClosedConcat(lines[..n], [lines[n]], LF);
    assert Closed([lines[n]]) == lines[n] + NEWLINE;
    assert lines[..n + 1] == lines[..n] + [lines[n]];
  }

  /** The scan stands at the start of line `n`. */
  ghost predicate StandsAt(content: seq<Byte>, lines: seq<seq<Byte>>, n: nat, start: nat) {
    n < |lines| && start <= |content| && start == StartOf(lines, n) && content[start..] == Unsplit(lines[n..])
  }

  lemma ScanStep(content: seq<Byte>, lines: seq<seq<Byte>>, n: nat, start: nat)
    requires AllLines(lines) && StandsAt(content, lines, n, start)
    ensures var idx := Separated.IndexOf(content[start..], LF);
            && idx == |lines[n]|
            && (idx == |content[start..]| <==> n + 1 == |lines|)
            && (n + 1 < |lines| ==> StandsAt(content, lines, n + 1, start + idx + 1))
  {
    NextLine(lines, n);
    if n + 1 < |lines| {
      var idx := |lines[n]|;
      assert content[start..][idx + 1..] == content[start + idx + 1..];
    }
  }

  /** The scan of the source; line numbers count from 1. */
  method FindLineByteRange(content: seq<Byte>, lineNumber: int, ghost lines: seq<seq<Byte>>)
    returns (start: nat, end: nat, ok: bool)
    requires HasLines(content, lines)
    ensures ok <==> 1 <= lineNumber <= |lines|
    ensures start <= end <= |content|
    ensures ok ==> start == StartOf(lines, lineNumber - 1) && content[start..end] == lines[lineNumber - 1]
  {
    if lineNumber <= 0 {
      return 0, 0, false;
    }
    assert lines[0..] == lines && content[0..] == content;
    start := 0;
    var current := 1;
    while current < lineNumber
      invariant 1 <= current <= lineNumber
      invariant StandsAt(content, lines, current - 1, start)
    {
      ScanStep(content, lines, current - 1, start);
      var idx := Separated.IndexOf(content[start..], LF);
      if idx == |content[start..]| {
        return 0, 0, false;
      }
      start := start + idx + 1;
      current := current + 1;
    }
    ScanStep(content, lines, current - 1, start);
    AroundLine(lines, current - 1);
    var endRel := Separated.IndexOf(content[start..], LF);
    return start, start + endRel, true;
  }

  // ---------------------------------------------------------------- counting

  lemma {:induction false} CountAppend(a: seq<Byte>, b: seq<Byte>)
    ensures CountLineFeeds(a + b) == CountLineFeeds(a) + CountLineFeeds(b)
  {
    if a == [] {
      assert a + b == b;
    } else {
      CountAppend(a[1..], b);
      assert (a + b)[1..] == a[1..] + b;
    }
  }

  lemma {:induction false} CountOneLine(s: seq<Byte>)
    requires OneLine(s)
    ensures CountLineFeeds(s) == 0
  {
    if s != [] {
      CountOneLine(s[1..]);
    }
  }

  lemma {:induction false} CountClosed(lines: seq<seq<Byte>>)
    requires AllLines(lines)
    ensures CountLineFeeds(Closed(lines)) == |lines|
  {
    if lines != [] {
      CountClosed(lines[1..]);
      CountAppend(lines[0] + NEWLINE, Closed(lines[1..]));
      CountAppend(lines[0], NEWLINE);
      CountOneLine(lines[0]);
    }
  }

  /** A text that ends in a line feed consists of closed lines, as many as it has line feeds. */
  lemma ClosedLines(prefix: seq<Byte>) returns (lines: seq<seq<Byte>>)
    requires prefix == [] || Last(prefix) == LF
    ensures prefix == Closed(lines) && AllLines(lines) && |lines| == CountLineFeeds(prefix)
  {
    lines := Separated.ClosedPieces(prefix, LF);
    CountClosed(lines);
  }

  /** Behind a prefix of closed lines come exactly the lines of the remainder. */
  lemma LinesBehindPrefix(prefix: seq<Byte>, body: seq<Byte>) returns (above: seq<seq<Byte>>)
    requires prefix == [] || Last(prefix) == LF
    ensures Split(prefix + body) == above + Split(body)
    ensures prefix == Closed(above) && |above| == CountLineFeeds(prefix)
  {
    above := ClosedLines(prefix);
    Separated.SplitClosed(above, body, LF);
  }

  /** Counting both from 0 (or both from 1), line `offset + n` of `file` exists exactly if line `n` of
      `body` does, holds the same bytes, and starts `skipped` bytes later. */
  ghost predicate MapsLine(file: seq<seq<Byte>>, body: seq<seq<Byte>>, offset: nat, skipped: int, n: nat) {
    && (offset + n < |file| <==> n < |body|)
    && (n < |body| ==> file[offset + n] == body[n] && StartOf(file, offset + n) == skipped + StartOf(body, n))
  }

  lemma LineBehind(above: seq<seq<Byte>>, lines: seq<seq<Byte>>, n: nat)
    ensures MapsLine(above + lines, lines, |above|, |Closed(above)|, n)
  {
    if n < |lines| {
      assert (above + lines)[..|above| + n] == above + lines[..n];
      Separated.ClosedConcat(above, lines[..n], LF);
    }
  }
}
