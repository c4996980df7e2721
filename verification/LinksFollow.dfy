/** After a successful transaction: the links of every file lead to the moved file. */
module LinksFollow {
  import opened Common
  import opened Bytes
  import opened Paths
  import opened Files
  import opened LinkRewriting
  import opened LinkUpdates
  import opened LinkPlaces
  import opened LinkResolution
  import LinkTargets
  import Lines
  import Separated

  // ---------------------------------------------------------------- texts and bytes

  function TextOf(bytes: seq<Byte>): (s: string)
    ensures |s| == |bytes| && forall i :: 0 <= i < |s| ==> s[i] == bytes[i] as char
  {
    seq(|bytes|, i requires 0 <= i < |bytes| => bytes[i] as char)
  }

  function BytesOf(s: string): (bytes: seq<Byte>)
    ensures |bytes| == |s| && forall i :: 0 <= i < |s| ==> bytes[i] == s[i] as int % 256
  {
    seq(|s|, i requires 0 <= i < |s| => s[i] as int % 256)
  }

  /** Characters stand for bytes, and none is a line feed. */
  predicate Tame(s: string) {
    forall c :: c in s ==> c as int < 256 && c as int != LF
  }

  lemma TameText(s: string)
    requires Tame(s)
    ensures TextOf(BytesOf(s)) == s && Lines.OneLine(BytesOf(s))
  {
    forall i | 0 <= i < |s| ensures s[i] as int < 256 && s[i] as int != LF {
      assert s[i] in s;
    }
  }

  lemma TameBytes(bytes: seq<Byte>)
    requires Lines.OneLine(bytes)
    ensures Tame(TextOf(bytes))
  {
    forall c | c in TextOf(bytes) ensures c as int < 256 && c as int != LF {
      var i :| 0 <= i < |bytes| && TextOf(bytes)[i] == c;
      assert bytes[i] in bytes;
    }
  }

  ghost predicate AllTame(p: seq<string>) {
    forall s :: s in p ==> Tame(s)
  }

  lemma {:induction false} UnsplitTame(pieces: seq<string>)
    requires pieces != [] && AllTame(pieces)
    ensures Tame(Separated.Unsplit(pieces, '/'))
  {
    if |pieces| > 1 {
      assert forall s :: s in pieces[1..] ==> s in pieces;
      UnsplitTame(pieces[1..]);
      assert pieces[0] in pieces;
    } else {
      assert pieces[0] in pieces;
    }
  }

  lemma RelTame(base: AbsPath, target: AbsPath)
    requires AllTame(target)
    ensures Tame(Rel(base, target))
  {
    SegmentsTame(base, target);
    UnsplitTame(RelSegments(base, target));
  }

  lemma SegmentsTame(base: AbsPath, target: AbsPath)
    requires AllTame(target)
    ensures AllTame(RelSegments(base, target))
  {
    var c := CommonLength(base, target);
    UpsPlain(|base| - c);
    DotsTame();
    forall s | s in RelSegments(base, target) ensures Tame(s) {
      if s in target[c..] {
        assert s in target;
      } else {
        assert s == "." || s in Ups(|base| - c);
      }
    }
  }

  lemma DotsTame()
    ensures Tame(".") && Tame("..") && Tame("/") && Tame("./")
  {
  }

  lemma TameConcat(a: string, b: string)
    ensures Tame(a + b) <==> Tame(a) && Tame(b)
  {
    assert forall c :: c in a + b <==> c in a || c in b;
  }

  lemma TamePieces(s: string, n: nat)
    requires Tame(s) && n <= |s|
    ensures Tame(s[..n]) && Tame(s[n..])
  {
    assert forall c :: c in s[..n] ==> c in s;
    assert forall c :: c in s[n..] ==> c in s;
  }

  lemma UpdatedPathTame(source: AbsPath, newAbs: AbsPath, siteAbsolute: bool, dotSlash: bool)
    requires AllTame(newAbs)
    ensures var updated := LinkTargets.UpdatedPath(source, newAbs, siteAbsolute, dotSlash);
            updated.Ok? ==> Tame(updated.value)
  {
    var base := if !siteAbsolute then Parent(source)
                else
                  var root := LinkTargets.ContentRoot(Parent(source));
                  if root.None? then [] else root.value;
    RelTame(base, newAbs);
    DotsTame();
    TameConcat("/", Rel(base, newAbs));
    TameConcat("./", Rel(base, newAbs));
  }

  lemma RetargetedTame(source: AbsPath, text: string, newAbs: AbsPath)
    requires Tame(text) && AllTame(newAbs)
    ensures var updated := LinkTargets.ComputeUpdatedLinkTarget(source, text, newAbs);
            updated.Ok? ==> Tame(updated.value.newTarget)
  {
    var path, fragment := LinkTargets.PathPart(text), LinkTargets.Fragment(text);
    TamePieces(text, Separated.IndexOf(text, '#'));
    UpdatedPathTame(source, newAbs, HasPrefix(path, "/"), HasPrefix(path, "./"));
    var updated := LinkTargets.UpdatedPath(source, newAbs, HasPrefix(path, "/"), HasPrefix(path, "./"));
    if updated.Ok? {
      StripTame(updated.value);
      TameConcat(updated.value, fragment);
      TameConcat(LinkTargets.StripExtension(updated.value), fragment);
    }
  }

  lemma StripTame(s: string)
    requires Tame(s)
    ensures Tame(LinkTargets.StripExtension(s))
  {
    if |s| >= 3 {
      TamePieces(s, |s| - 3);
    }
    if |s| >= 9 {
      TamePieces(s, |s| - 9);
    }
  }

  lemma TameThree(a: string, b: string, c: string)
    requires Tame(a) && Tame(b) && Tame(c)
    ensures Tame(a + b + c)
  {
    TameConcat(a, b);
    TameConcat(a + b, c);
  }

  lemma ReplacedTame(s: string, name: string, replacement: string)
    requires Tame(s) && Tame(replacement)
    ensures Tame(ReplaceFirst(s, name, replacement))
  {
    var at := Index(s, name);
    if at.Some? {
      TameAround(s, at.value, at.value + |name|, replacement);
    }
  }

  lemma TameAround(s: string, a: nat, b: nat, replacement: string)
    requires Tame(s) && Tame(replacement) && a <= b <= |s|
    ensures Tame(s[..a] + replacement + s[b..])
  {
    TamePieces(s, a);
    TamePieces(s, b);
    TameThree(s[..a], replacement, s[b..]);
  }

  /** Whatever happens to a link, its new text has no line feed if neither it nor the new path has one. */
  lemma UpdatedTame(entries: set<AbsPath>, source: AbsPath, target: string, fragment: string,
                    oldAbs: AbsPath, newAbs: AbsPath)
    requires oldAbs != [] && newAbs != [] && Tame(target) && Tame(fragment) && AllTame(newAbs)
    ensures Tame(UpdateLinkTarget(entries, source, target, fragment, oldAbs, newAbs))
  {
    TameConcat(target, fragment);
    RetargetedTame(source, target + fragment, newAbs);
    assert Last(newAbs) in newAbs;
    ReplacedTame(target, Last(oldAbs), Last(newAbs));
    TameConcat(ReplaceFirst(target, Last(oldAbs), Last(newAbs)), fragment);
  }

  // ---------------------------------------------------------------- the retargeting of a move

  function PathOf(file: Path): AbsPath {
    JoinClean([], TextOf(file))
  }

  /** The new text of a link when a file has moved. */
  function NewText(entries: set<AbsPath>, link: LinkReference, oldAbs: AbsPath, newAbs: AbsPath): string
    requires oldAbs != [] && newAbs != []
  {
    UpdateLinkTarget(entries, PathOf(link.sourceFile), TextOf(link.target), TextOf(link.fragment), oldAbs, newAbs)
  }

  function Moving(entries: set<AbsPath>, oldAbs: AbsPath, newAbs: AbsPath): Retarget
    requires oldAbs != [] && newAbs != []
  {
    (link: LinkReference) => BytesOf(NewText(entries, link, oldAbs, newAbs))
  }

  ghost predicate OneLineLinks(links: seq<LinkReference>) {
    forall l :: l in links ==> Lines.OneLine(l.target) && Lines.OneLine(l.fragment)
  }

  lemma MovingIsOneLine(entries: set<AbsPath>, links: seq<LinkReference>, oldAbs: AbsPath, newAbs: AbsPath)
    requires oldAbs != [] && newAbs != [] && AllTame(newAbs) && OneLineLinks(links)
    ensures forall l :: l in links ==> Lines.OneLine(Moving(entries, oldAbs, newAbs)(l))
    ensures forall l :: l in links ==>
              TextOf(Moving(entries, oldAbs, newAbs)(l)) == NewText(entries, l, oldAbs, newAbs)
  {
    forall l | l in links
      ensures Lines.OneLine(Moving(entries, oldAbs, newAbs)(l))
      ensures TextOf(Moving(entries, oldAbs, newAbs)(l)) == NewText(entries, l, oldAbs, newAbs)
    {
      TameBytes(l.target);
      TameBytes(l.fragment);
      UpdatedTame(entries, PathOf(l.sourceFile), TextOf(l.target), TextOf(l.fragment), oldAbs, newAbs);
      TameText(NewText(entries, l, oldAbs, newAbs));
    }
  }

  // ---------------------------------------------------------------- one line of a rewritten file

  lemma {:induction false} OnLineCount(links: seq<LinkReference>, n: int, l: LinkReference)
    ensures multiset(OnLine(links, n))[l] == if l.lineNumber == n then multiset(links)[l] else 0
  {
    if links != [] {
      OnLineCount(links[1..], n, l);
      assert links == [links[0]] + links[1..];
    }
  }

  lemma OnLinePermuted(a: seq<LinkReference>, b: seq<LinkReference>, n: int)
    requires multiset(a) == multiset(b)
    ensures multiset(OnLine(a, n)) == multiset(OnLine(b, n))
  {
    forall l ensures multiset(OnLine(a, n))[l] == multiset(OnLine(b, n))[l] {
      OnLineCount(a, n, l);
      OnLineCount(b, n, l);
    }
  }

  /** In whatever order the sort leaves the links of this line, each can be rewritten where it stands. */
  ghost predicate InPlaceInAnyOrder(line: seq<Byte>, places: seq<Place>, links: seq<LinkReference>, retarget: Retarget)
  {
    forall ls: seq<LinkReference> :: multiset(ls) == multiset(links) ==> InPlace(line, places, ls, retarget)
  }

  /** A link that is alone on its line can be rewritten where it stands exactly if its text does not occur
      behind it. */
  lemma AloneInPlaceIff(line: seq<Byte>, p: Place, retarget: Retarget)
    requires Stand(line, [p]) && retarget(p.link) != p.link.Text()
    ensures InPlaceInAnyOrder(line, [p], [p.link], retarget) <==>
            forall k: nat :: p.at < k ==> !OccursAt(line, p.link.Text(), k)
  {
    AloneIff(line, p, retarget);
    assert LinkPlaces.LinksOf([p]) == [p.link] by { assert [p][..0] == []; }
    if InPlaceInAnyOrder(line, [p], [p.link], retarget) {
      assert InPlace(line, [p], [p.link], retarget);
      var ps :| Ordered(line, [p], [p.link], retarget, ps);
      OneElement(ps, p);
    } else {
      var ls: seq<LinkReference> :| multiset(ls) == multiset([p.link]) && !InPlace(line, [p], ls, retarget);
      OneElement(ls, p.link);
      assert !Ordered(line, [p], ls, retarget, [p]);
    }
  }

  lemma OneElement<T>(s: seq<T>, x: T)
    requires multiset(s) == multiset([x])
    ensures s == [x]
  {
    assert |s| == |multiset(s)| == 1;
    assert s[0] in multiset([x]);
  }

  lemma AloneIff(line: seq<Byte>, p: Place, retarget: Retarget)
    requires Stand(line, [p]) && retarget(p.link) != p.link.Text()
    ensures LastOfItsText(line, [p], retarget, 0) <==> forall k: nat :: p.at < k ==> !OccursAt(line, p.link.Text(), k)
  {
    var none: seq<Place> := [];
    assert [p][..0] == none;
    StandPrefix(line, [p], 0);
    assert EditsOf(none, retarget) == [] && Intended(line, none, retarget) == line[0..] == line;
  }

  lemma LineRewritten(before: seq<Byte>, after: seq<Byte>, refs: seq<LinkReference>, retarget: Retarget,
                      updates: seq<LinkUpdate>, n: nat, places: seq<Place>)
    requires Rewrites(before, after, refs, retarget, updates) && forall l :: l in refs ==> Lines.OneLine(retarget(l))
    requires n < |Lines.Split(before)| && Stand(Lines.Split(before)[n], places)
    requires InPlaceInAnyOrder(Lines.Split(before)[n], places, OnLine(refs, n + 1), retarget)
    ensures n < |Lines.Split(after)|
    ensures Lines.Split(after)[n] == Intended(Lines.Split(before)[n], places, retarget)
  {
    var lines, edit := Lines.Split(before), EditorFor(retarget);
    var sorted: seq<LinkReference> :|
      && multiset(sorted) == multiset(refs) && Descending(sorted)
      && Lines.HasLines(after, EditLines(lines, sorted, edit)) && updates == Reported(lines, sorted, retarget);
    Lines.SplitIffHasLines(after, EditLines(lines, sorted, edit));
    LinesAreIndependent(lines, sorted, edit, n);
    OnLinePermuted(sorted, refs, n + 1);
    InPlaceIsIntended(lines[n], places, OnLine(sorted, n + 1), retarget);
  }

  /** The bytes of the line from `at` on, as many as the text has. */
  function TextAt(line: seq<Byte>, at: int, text: seq<Byte>): string
    requires 0 <= at && OccursAt(line, text, at)
  {
    TextOf(line[at..at + |text|])
  }

  lemma NewTextOnLine(before: Tree, after: Tree, links: seq<LinkReference>, entries: set<AbsPath>,
                      oldAbs: AbsPath, newAbs: AbsPath, all: seq<LinkUpdate>, f: Path, n: nat,
                      places: seq<Place>, p: Place)
    requires oldAbs != [] && newAbs != [] && AllTame(newAbs) && OneLineLinks(links)
    requires AllRewritten(before, after, links, Moving(entries, oldAbs, newAbs), all, Sources(links))
    requires f in Sources(links) && f in before && n < |Lines.Split(before[f])|
    requires Stand(Lines.Split(before[f])[n], places) && p in places && p.link in links
    requires InPlaceInAnyOrder(Lines.Split(before[f])[n], places, OnLine(LinkUpdates.LinksOf(links, f), n + 1),
                               Moving(entries, oldAbs, newAbs))
    ensures f in after && n < |Lines.Split(after[f])|
    ensures var line, text := Lines.Split(after[f])[n], Moving(entries, oldAbs, newAbs)(p.link);
            var at := MovedTo(places, Moving(entries, oldAbs, newAbs), p.at);
            0 <= at && OccursAt(line, text, at) && TextAt(line, at, text) == NewText(entries, p.link, oldAbs, newAbs)
  {
    var retarget, refs := Moving(entries, oldAbs, newAbs), LinkUpdates.LinksOf(links, f);
    MovingIsOneLine(entries, links, oldAbs, newAbs);
    LinksOfAreLinks(links, f);
    assert Rewritten(before, after, links, retarget, all, f);
    LineRewritten(before[f], after[f], refs, retarget, UpdatesIn(all, f), n, places);
    NewTextStands(Lines.Split(before[f])[n], places, retarget, p);
  }

  /** The link was found: it leads to the old path, and is cut into path and fragment. */
  predicate Found(entries: set<AbsPath>, link: LinkReference, oldAbs: AbsPath) {
    var target, fragment := TextOf(link.target), TextOf(link.fragment);
    && '#' !in target && (fragment == "" || fragment[0] == '#')
    && LeadsTo(entries, PathOf(link.sourceFile), target + fragment, oldAbs)
  }

  /** After a successful transaction, a link that was found, on a line whose links can be rewritten where
      they stand, leads to the moved file, from where it stands now, exactly under the conditions of its
      new text. */
  lemma LinkFollowsIff(before: Tree, after: Tree, links: seq<LinkReference>, entries: set<AbsPath>,
                       oldAbs: AbsPath, newAbs: AbsPath, all: seq<LinkUpdate>, f: Path, n: nat,
                       places: seq<Place>, p: Place)
    requires oldAbs != [] && CleanSegment(Last(oldAbs)) && newAbs != [] && Clean(newAbs) && newAbs in entries
    requires AllTame(newAbs) && OneLineLinks(links)
    requires AllRewritten(before, after, links, Moving(entries, oldAbs, newAbs), all, Sources(links))
    requires f in Sources(links) && f in before && n < |Lines.Split(before[f])|
    requires Stand(Lines.Split(before[f])[n], places) && p in places && p.link in links && p.link.sourceFile == f
    requires InPlaceInAnyOrder(Lines.Split(before[f])[n], places, OnLine(LinkUpdates.LinksOf(links, f), n + 1),
                               Moving(entries, oldAbs, newAbs))
    requires Found(entries, p.link, oldAbs)
    requires ReplacesFileName(PathOf(f), TextOf(p.link.target), TextOf(p.link.fragment), oldAbs, newAbs)
    ensures f in after && n < |Lines.Split(after[f])|
    ensures var line, text := Lines.Split(after[f])[n], Moving(entries, oldAbs, newAbs)(p.link);
            var at := MovedTo(places, Moving(entries, oldAbs, newAbs), p.at);
            && 0 <= at && OccursAt(line, text, at)
            && (LeadsTo(entries, PathOf(f), TextAt(line, at, text), newAbs) <==>
                LeadsAfterwards(entries, PathOf(f), TextOf(p.link.target), TextOf(p.link.fragment), oldAbs, newAbs))
  {
    NewTextOnLine(before, after, links, entries, oldAbs, newAbs, all, f, n, places, p);
    UpdatedLeadsIff(entries, PathOf(f), TextOf(p.link.target), TextOf(p.link.fragment), oldAbs, newAbs);
  }
}
