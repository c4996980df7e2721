/** Rewriting the links of one file: from the last line to the first, the last occurrence on a line. */
module LinkRewriting {
  import opened Common
  import opened Bytes
  import opened Edits
  import Lines

  datatype LinkReference = LinkReference(
    sourceFile: seq<Byte>, lineNumber: int, target: seq<Byte>, fragment: seq<Byte>)
  {
    function Text(): seq<Byte> {
      target + fragment
    }
  }

  datatype LinkUpdate = LinkUpdate(sourceFile: seq<Byte>, lineNumber: int, oldTarget: seq<Byte>, newTarget: seq<Byte>)

  /** Gives a link its new text; any function may stand for the retargeting. */
  type Retarget = LinkReference -> seq<Byte>

  // ---------------------------------------------------------------- specification on lines

  /** The last occurrence of the link's text on its line is replaced. */
  function EditLine(line: seq<Byte>, link: LinkReference, retarget: Retarget): seq<Byte> {
    var at := LastIndex(line, link.Text());
    if retarget(link) == link.Text() || at.None? then
      line
    else
      line[..at.value] + retarget(link) + line[at.value + |link.Text()|..]
  }

  /** How a link changes the line it is on. */
  type Editor = (seq<Byte>, LinkReference) -> seq<Byte>

  function EditorFor(retarget: Retarget): Editor {
    (line, link) => EditLine(line, link, retarget)
  }

  function EditNamed(lines: seq<seq<Byte>>, link: LinkReference, edit: Editor): seq<seq<Byte>> {
    var n := link.lineNumber - 1;
    if 0 <= n < |lines| then lines[n := edit(lines[n], link)] else lines
  }

  /** The links applied one after the other, each to its own line. */
  function EditLines(lines: seq<seq<Byte>>, links: seq<LinkReference>, edit: Editor): seq<seq<Byte>>
    decreases |links|
  {
    if links == [] then lines else EditLines(EditNamed(lines, links[0], edit), links[1..], edit)
  }

  function OnLine(links: seq<LinkReference>, lineNumber: int): seq<LinkReference> {
    if links == [] then []
    else if links[0].lineNumber == lineNumber then [links[0]] + OnLine(links[1..], lineNumber)
    else OnLine(links[1..], lineNumber)
  }

  function EditRepeatedly(line: seq<Byte>, links: seq<LinkReference>, edit: Editor): seq<Byte>
    decreases |links|
  {
    if links == [] then line else EditRepeatedly(edit(line, links[0]), links[1..], edit)
  }

  /** A line is changed by the links that name it, in their order, and by nothing else. */
  lemma {:induction false} LinesAreIndependent(lines: seq<seq<Byte>>, links: seq<LinkReference>, edit: Editor, n: nat)
    requires n < |lines|
    ensures |EditLines(lines, links, edit)| == |lines|
    ensures EditLines(lines, links, edit)[n] == EditRepeatedly(lines[n], OnLine(links, n + 1), edit)
    decreases |links|
  {
    if links != [] {
      LinesAreIndependent(EditNamed(lines, links[0], edit), links[1..], edit, n);
      assert ([links[0]] + OnLine(links[1..], n + 1))[1..] == OnLine(links[1..], n + 1);
    }
  }

  /** A line that no link names is byte-identical. */
  lemma UnnamedLineKept(lines: seq<seq<Byte>>, links: seq<LinkReference>, edit: Editor, n: nat)
    requires n < |lines| && forall l :: l in links ==> l.lineNumber != n + 1
    ensures |EditLines(lines, links, edit)| == |lines| && EditLines(lines, links, edit)[n] == lines[n]
  {
    LinesAreIndependent(lines, links, edit, n);
    NotOnLine(links, n + 1);
  }

  lemma {:induction false} NotOnLine(links: seq<LinkReference>, lineNumber: int)
    requires forall l :: l in links ==> l.lineNumber != lineNumber
    ensures OnLine(links, lineNumber) == []
  {
    if links != [] {
      NotOnLine(links[1..], lineNumber);
    }
  }

  // ---------------------------------------------------------------- the algorithm

  ghost predicate Descending(links: seq<LinkReference>) {
    forall i, j :: 0 <= i < j < |links| ==> links[i].lineNumber >= links[j].lineNumber
  }

  /** The first `i` links are not below any later one. */
  ghost predicate TopSorted(links: seq<LinkReference>, i: nat) {
    forall a, b :: 0 <= a < i && a < b < |links| ==> links[a].lineNumber >= links[b].lineNumber
  }

  lemma SwapKeepsTop(links: seq<LinkReference>, i: nat, j: nat)
    requires TopSorted(links, i) && i < j < |links|
    ensures TopSorted(Swap(links, i, j), i)
  {
  }

  /** The exchange sort of the source: descending line numbers, not stable. */
  method SortDescending(links: seq<LinkReference>) returns (sorted: seq<LinkReference>)
    ensures multiset(sorted) == multiset(links) && Descending(sorted)
  {
    sorted := links;
    for i := 0 to |sorted|
      invariant |sorted| == |links| && multiset(sorted) == multiset(links)
      invariant TopSorted(sorted, i)
    {
      for j := i + 1 to |sorted|
        invariant |sorted| == |links| && multiset(sorted) == multiset(links)
        invariant TopSorted(sorted, i)
        invariant forall b :: i < b < j ==> sorted[i].lineNumber >= sorted[b].lineNumber
      {
        if sorted[i].lineNumber < sorted[j].lineNumber {
          SwapKeepsTop(sorted, i, j);
          sorted := Swap(sorted, i, j);
        }
      }
    }
  }

  lemma SingleEdit(content: seq<Byte>, e: Edit, sorted: seq<Edit>)
    requires InRange(|content|, e) && multiset(sorted) == multiset([e])
    ensures Acceptable(|content|, [e]) && Reverse(sorted) == [e] && Ascending(|content|, [e], 0)
    ensures Splice(content, [e], 0) == content[..e.start] + e.replacement + content[e.end..]
  {
    assert |sorted| == |multiset(sorted)| == 1;
    assert sorted[0] in multiset([e]);
    assert sorted == [e];
    assert [e][1..] == [];
  }

  /** A single edit in range is accepted and replaces its range. */
  method ApplyOne(content: seq<Byte>, start: nat, end: nat, replacement: seq<Byte>) returns (out: seq<Byte>)
    requires start <= end <= |content|
    ensures out == content[..start] + replacement + content[end..]
  {
    var e := Edit(start, end, replacement);
    var r;
    ghost var sorted;
    r, sorted := ApplyEdits(content, [e]);
    SingleEdit(content, e, sorted);
    out := r.value;
  }

  function UpdateOf(link: LinkReference, retarget: Retarget): LinkUpdate {
    LinkUpdate(link.sourceFile, link.lineNumber, link.Text(), retarget(link))
  }

  /** The link's line exists, mentions the link, and is to mention it differently. */
  predicate Changes(lines: seq<seq<Byte>>, link: LinkReference, retarget: Retarget) {
    var n := link.lineNumber - 1;
    0 <= n < |lines| && retarget(link) != link.Text() && LastIndex(lines[n], link.Text()).Some?
  }

  /** The updates to report: one for each link that changes its line, in the order of application. */
  function Reported(lines: seq<seq<Byte>>, links: seq<LinkReference>, retarget: Retarget): seq<LinkUpdate>
    decreases |links|
  {
    if links == [] then []
    else
      var rest := Reported(EditNamed(lines, links[0], EditorFor(retarget)), links[1..], retarget);
      if Changes(lines, links[0], retarget) then [UpdateOf(links[0], retarget)] + rest else rest
  }

  /** The loop over the sorted links of one file. Its steps keep the line structure as long as no new
      link text contains a line feed. */
  method RewriteLinks(content: seq<Byte>, links: seq<LinkReference>, retarget: Retarget, ghost lines: seq<seq<Byte>>)
    returns (out: seq<Byte>, updates: seq<LinkUpdate>, ghost sorted: seq<LinkReference>)
    requires Lines.HasLines(content, lines)
    ensures multiset(sorted) == multiset(links) && Descending(sorted)
    ensures OfLinks(updates, links, retarget)
    ensures updates == [] ==> out == content
    ensures (forall l :: l in links ==> Lines.OneLine(retarget(l))) ==>
              && Lines.HasLines(out, EditLines(lines, sorted, EditorFor(retarget)))
              && updates == Reported(lines, sorted, retarget)
  {
    var es := SortDescending(links);
    sorted := es;
    out, updates := content, [];
    ghost var flat := forall l :: l in links ==> Lines.OneLine(retarget(l));
    ghost var now := lines;
    assert es[0..] == es;
    for k := 0 to |es|
      invariant flat ==> Rewriting(lines, es, retarget, k, now, updates)
      invariant Lines.HasLines(out, now) && OfLinks(updates, links, retarget)
      invariant updates == [] ==> out == content
    {
      var link := es[k];
      assert link in multiset(es);
      ghost var was := now;
      var changed;
      out, changed, now := RewriteOne(out, link, retarget, now);
      if flat {
        NextLink(lines, es, retarget, k, was, updates);
      }
      if changed {
        assert Tells(UpdateOf(link, retarget), link, retarget);
        updates := updates + [UpdateOf(link, retarget)];
      }
    }
    if flat {
      RewritingDone(lines, es, retarget, now, updates);
    }
  }

  /** The update tells the old and the new text of the link, and where it stands. */
  ghost predicate Tells(u: LinkUpdate, l: LinkReference, retarget: Retarget) {
    u.sourceFile == l.sourceFile && u.lineNumber == l.lineNumber
    && u.oldTarget == l.target + l.fragment && u.newTarget == retarget(l)
  }

  /** Each update belongs to one of the links. */
  ghost predicate OfLinks(updates: seq<LinkUpdate>, links: seq<LinkReference>, retarget: Retarget) {
    forall u :: u in updates ==> exists l :: l in links && Tells(u, l, retarget)
  }

  /** The first `k` links have been applied and reported: the others do the rest. */
  ghost predicate Rewriting(lines: seq<seq<Byte>>, es: seq<LinkReference>, retarget: Retarget, k: nat,
                            now: seq<seq<Byte>>, updates: seq<LinkUpdate>)
  {
    && k <= |es|
    && EditLines(now, es[k..], EditorFor(retarget)) == EditLines(lines, es, EditorFor(retarget))
    && updates + Reported(now, es[k..], retarget) == Reported(lines, es, retarget)
  }

  lemma NextLink(lines: seq<seq<Byte>>, es: seq<LinkReference>, retarget: Retarget, k: nat,
                 now: seq<seq<Byte>>, updates: seq<LinkUpdate>)
    requires k < |es| && Rewriting(lines, es, retarget, k, now, updates)
    ensures Rewriting(lines, es, retarget, k + 1, EditNamed(now, es[k], EditorFor(retarget)),
                      if Changes(now, es[k], retarget) then updates + [UpdateOf(es[k], retarget)] else updates)
  {
    var rest := es[k..];
    assert rest[0] == es[k] && rest[1..] == es[k + 1..];
    var later := Reported(EditNamed(now, es[k], EditorFor(retarget)), es[k + 1..], retarget);
    assert updates + ([UpdateOf(es[k], retarget)] + later) == updates + [UpdateOf(es[k], retarget)] + later;
  }

  lemma RewritingDone(lines: seq<seq<Byte>>, es: seq<LinkReference>, retarget: Retarget,
                      now: seq<seq<Byte>>, updates: seq<LinkUpdate>)
    requires Rewriting(lines, es, retarget, |es|, now, updates)
    ensures now == EditLines(lines, es, EditorFor(retarget)) && updates == Reported(lines, es, retarget)
  {
    assert es[|es|..] == [];
    assert updates + [] == updates;
  }

  ghost predicate Contains(line: seq<Byte>, text: seq<Byte>) {
    exists k: nat :: OccursAt(line, text, k)
  }

  /** One iteration: the link's line is found and edited; a link to a missing line changes nothing. */
  method RewriteOne(content: seq<Byte>, link: LinkReference, retarget: Retarget, ghost lines: seq<seq<Byte>>)
    returns (out: seq<Byte>, changed: bool, ghost after: seq<seq<Byte>>)
    requires Lines.HasLines(content, lines)
    ensures !changed ==> out == content
    ensures Lines.HasLines(out, after)
    ensures changed <==> Changes(lines, link, retarget)
    ensures changed <==> 1 <= link.lineNumber <= |lines| && retarget(link) != link.target + link.fragment
                         && Contains(lines[link.lineNumber - 1], link.target + link.fragment)
    ensures Lines.OneLine(retarget(link)) ==> after == EditNamed(lines, link, EditorFor(retarget))
  {
    var start, end, ok := Lines.FindLineByteRange(content, link.lineNumber, lines);
    if !ok {
      return content, false, lines;
    }
    var newTarget := retarget(link);
    var oldText := link.Text();
    var line := content[start..end];
    var idx := LastIndex(line, oldText);
    if newTarget == oldText || idx.None? {
      return content, false, lines;
    }
    changed := true;
    out, after := ReplaceFound(content, start + idx.value, link, retarget, lines);
  }

  /** The edit itself, at the offset of the last occurrence. */
  method ReplaceFound(content: seq<Byte>, from: nat, link: LinkReference, retarget: Retarget,
                      ghost lines: seq<seq<Byte>>)
    returns (out: seq<Byte>, ghost after: seq<seq<Byte>>)
    requires Lines.HasLines(content, lines) && Changes(lines, link, retarget) && from + |link.Text()| <= |content|
    requires var n := link.lineNumber - 1; from == Lines.StartOf(lines, n) + LastIndex(lines[n], link.Text()).value
    ensures Lines.HasLines(out, after)
    ensures Lines.OneLine(retarget(link)) ==> after == EditNamed(lines, link, EditorFor(retarget))
  {
    out := ApplyOne(content, from, from + |link.Text()|, retarget(link));
    if Lines.OneLine(retarget(link)) {
      after := EditNamed(lines, link, EditorFor(retarget));
      EditedLine(content, lines, link, retarget);
    } else {
      after := Lines.Split(out);
      Lines.SplitIffHasLines(out, after);
    }
  }

  lemma EditedLine(content: seq<Byte>, lines: seq<seq<Byte>>, link: LinkReference, retarget: Retarget)
    requires Lines.HasLines(content, lines) && Changes(lines, link, retarget) && Lines.OneLine(retarget(link))
    ensures var n := link.lineNumber - 1;
            var from := Lines.StartOf(lines, n) + LastIndex(lines[n], link.Text()).value;
            var end := from + |link.Text()|;
            && end <= |content|
            && Lines.HasLines(content[..from] + retarget(link) + content[end..],
                              EditNamed(lines, link, EditorFor(retarget)))
  {
    var n := link.lineNumber - 1;
    EditedContent(content, lines, n, LastIndex(lines[n], link.Text()).value, |link.Text()|, retarget(link));
  }

  lemma EditedContent(content: seq<Byte>, lines: seq<seq<Byte>>, n: nat, at: nat, len: nat, replacement: seq<Byte>)
    requires Lines.HasLines(content, lines) && n < |lines| && at + len <= |lines[n]| && Lines.OneLine(replacement)
    ensures var from := Lines.StartOf(lines, n) + at;
            from + len <= |content| &&
            Lines.HasLines(content[..from] + replacement + content[from + len..],
                           lines[n := lines[n][..at] + replacement + lines[n][at + len..]])
  {
    var start, line := Lines.StartOf(lines, n), lines[n];
    Lines.LineAt(content, lines, n);
    assert line in lines;
    PatchedLine(line, at, len, replacement);
    Lines.ReplaceLine(content, lines, n, line[..at] + replacement + line[at + len..]);
    Surrounded(content, start, line, at, len, replacement);
  }

  lemma PatchedLine(line: seq<Byte>, at: nat, len: nat, replacement: seq<Byte>)
    requires Lines.OneLine(line) && Lines.OneLine(replacement) && at + len <= |line|
    ensures Lines.OneLine(line[..at] + replacement + line[at + len..])
  {
  }

  lemma Surrounded(content: seq<Byte>, start: nat, line: seq<Byte>, at: nat, len: nat, replacement: seq<Byte>)
    requires start + |line| <= |content| && content[start..start + |line|] == line && at + len <= |line|
    ensures content[..start] + (line[..at] + replacement + line[at + len..]) + content[start + |line|..] ==
            content[..start + at] + replacement + content[start + at + len..]
  {
    assert content[..start + at] == content[..start] + line[..at];
    assert content[start + at + len..] == line[at + len..] + content[start + |line|..];
  }
}
