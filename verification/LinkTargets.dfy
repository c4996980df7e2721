/** Retargeting a link to a moved file, and resolving a link to a file. */
module LinkTargets {
  import opened Common
  import opened Paths
  import Separated

  // ---------------------------------------------------------------- pieces of a link text

  /** The text before the first '#'. */
  function PathPart(target: string): string {
    target[..Separated.IndexOf(target, '#')]
  }

  /** The first '#' and everything behind it. */
  function Fragment(target: string): string {
    target[Separated.IndexOf(target, '#')..]
  }

  predicate HasExtension(s: string, extension: string) {
    |extension| <= |s| && Lower(s[|s| - |extension|..]) == extension
  }

  predicate HasMarkdownExtension(s: string) {
    HasExtension(s, ".md") || HasExtension(s, ".markdown")
  }

  function StripExtension(s: string): string {
    if HasExtension(s, ".md") then s[..|s| - 3]
    else if HasExtension(s, ".markdown") then s[..|s| - 9]
    else s
  }

  predicate HasUrlScheme(s: string) {
    || HasPrefix(Lower(s), "http://") || HasPrefix(Lower(s), "https://")
    || HasPrefix(Lower(s), "mailto:") || HasPrefix(Lower(s), "tel:")
  }

  // ---------------------------------------------------------------- content root

  /** The nearest directory named "content", from `dir` upwards. */
  function ContentRoot(dir: AbsPath): (root: Option<AbsPath>)
    ensures root.Some? ==> root.value != [] && Last(root.value) == "content" && root.value <= dir
    ensures forall p :: p != [] && p <= dir && Last(p) == "content" ==> root.Some? && p <= root.value
  {
    if dir == [] then None
    else if Last(dir) == "content" then Some(dir)
    else ContentRoot(Parent(dir))
  }

  method FindContentRoot(sourceFile: AbsPath) returns (root: Option<AbsPath>)
    ensures root == ContentRoot(Parent(sourceFile))
  {
    var dir := Parent(sourceFile);
    while true
      invariant ContentRoot(dir) == ContentRoot(Parent(sourceFile))
      decreases |dir|
    {
      if dir != [] && Last(dir) == "content" {
        return Some(dir);
      }
      var parent := Parent(dir);
      if parent == dir {
        return None;
      }
      dir := parent;
    }
  }

  // ---------------------------------------------------------------- retargeting

  datatype LinkError = ContentRootNotFound

  datatype Retargeted = Retargeted(newTarget: string, changed: bool)

  function UpdatedPath(source: AbsPath, newAbs: AbsPath, siteAbsolute: bool, dotSlash: bool): Result<string, LinkError>
  {
    if siteAbsolute then
      var root := ContentRoot(Parent(source));
      if root.None? then Err(ContentRootNotFound) else Ok("/" + Rel(root.value, newAbs))
    else
      var updated := Rel(Parent(source), newAbs);
      Ok(if dotSlash && !HasPrefix(updated, "../") && !HasPrefix(updated, "./") then "./" + updated else updated)
  }

  /** The links that are never rewritten. */
  predicate LeftAlone(target: string) {
    target == "" || HasPrefix(target, "#") || PathPart(target) == "" || HasUrlScheme(PathPart(target))
  }

  function ComputeUpdatedLinkTarget(source: AbsPath, target: string, newAbs: AbsPath): Result<Retargeted, LinkError> {
    if LeftAlone(target) then
      Ok(Retargeted(target, false))
    else
      var path := PathPart(target);
      match UpdatedPath(source, newAbs, HasPrefix(path, "/"), HasPrefix(path, "./"))
      case Err(e) => Err(e)
      case Ok(updated) =>
        var kept := if HasMarkdownExtension(path) then updated else StripExtension(updated);
        var newTarget := kept + Fragment(target);
        Ok(Retargeted(newTarget, newTarget != target))
  }

  // ---------------------------------------------------------------- resolving

  /** The path itself if it exists, or with an extension if only that exists, or else the path itself. */
  function Probe(entries: set<AbsPath>, p: AbsPath): AbsPath {
    if FileExists(entries, p) then p
    else if FileExists(entries, WithExtension(p, ".md")) then WithExtension(p, ".md")
    else if FileExists(entries, WithExtension(p, ".markdown")) then WithExtension(p, ".markdown")
    else p
  }

  /** The directory that a link path is relative to, and the path text relative to it. */
  function BaseOf(source: AbsPath, path: string): AbsPath {
    if !HasPrefix(path, "/") then Parent(source)
    else
      var root := ContentRoot(Parent(source));
      if root.Some? then root.value else []
  }

  function Landing(source: AbsPath, target: string): AbsPath {
    var path := PathPart(target);
    JoinClean(BaseOf(source, path), if HasPrefix(path, "/") then path[1..] else path)
  }

  function ResolveRelativePath(entries: set<AbsPath>, source: AbsPath, target: string): AbsPath {
    Probe(entries, Landing(source, target))
  }

  // ---------------------------------------------------------------- extensions are in the last segment

  lemma ExtensionOfLast(front: seq<string>, last: string, extension: string)
    requires '/' !in extension && extension != ""
    ensures HasExtension(Separated.Closed(front, '/') + last, extension) <==> HasExtension(last, extension)
  {
    var head := Separated.Closed(front, '/');
    var text, n := head + last, |extension|;
    if n <= |last| {
      assert text[|text| - n..] == last[|last| - n..];
    } else if head == [] {
      assert text == last;
    } else if n <= |text| {
      ClosedEnds(front);
      assert text[|text| - n..][n - |last| - 1] == '/';
    }
  }

  lemma {:induction false} ClosedEnds(front: seq<string>)
    ensures front != [] ==> Separated.Closed(front, '/') != "" && Last(Separated.Closed(front, '/')) == '/'
    ensures front == [] ==> Separated.Closed(front, '/') == ""
  {
    if |front| > 1 {
      ClosedEnds(front[1..]);
    } else if |front| == 1 {
      assert front[1..] == [];
      assert Separated.Closed(front, '/') == front[0] + ['/'];
    }
  }

  lemma StripLast(front: seq<string>, last: string)
    ensures StripExtension(Separated.Closed(front, '/') + last) == Separated.Closed(front, '/') + StripExtension(last)
    ensures HasMarkdownExtension(Separated.Closed(front, '/') + last) <==> HasMarkdownExtension(last)
  {
    ExtensionOfLast(front, last, ".md");
    ExtensionOfLast(front, last, ".markdown");
  }

  lemma DotsHaveNoExtension(s: string)
    requires s == "." || s == ".."
    ensures !HasMarkdownExtension(s)
  {
  }

  // ---------------------------------------------------------------- where a rewritten link lands

  lemma JoinPieces(base: AbsPath, front: seq<string>, last: string)
    requires Separated.AllFree(front, '/') && '/' !in last
    ensures JoinClean(base, Separated.Closed(front, '/') + last) == Walk(Walk(base, front), [last])
  {
    Separated.SplitClosed(front, last, '/');
    Separated.OnePiece(last, '/');
    WalkAppend(base, front, [last]);
  }

  lemma JoinDot(base: AbsPath, text: string)
    ensures JoinClean(base, "./" + text) == JoinClean(base, text)
  {
    Separated.SplitFirst(".", text, '/');
    assert "./" + text == "." + ['/'] + text;
    var pieces := Separated.Split(text, '/');
    assert ["."] + pieces == ["."] + pieces && (["."] + pieces)[1..] == pieces;
  }

  /** A link that keeps its extension lands on the target. */
  lemma JoinRel(base: AbsPath, newAbs: AbsPath)
    requires Clean(newAbs)
    ensures JoinClean(base, Rel(base, newAbs)) == newAbs
  {
    RelHasNoSlash(base, newAbs);
    Separated.SplitUnsplit(RelSegments(base, newAbs), '/');
    WalkRel(base, newAbs);
  }

  lemma RelText(base: AbsPath, newAbs: AbsPath) returns (front: seq<string>, last: string)
    ensures RelSegments(base, newAbs) == front + [last] && front == RelSegments(base, newAbs)[..|front|]
    ensures Rel(base, newAbs) == Separated.Closed(front, '/') + last
  {
    var segments := RelSegments(base, newAbs);
    front, last := segments[..|segments| - 1], Last(segments);
    Separated.UnsplitAppend(front, [last], '/');
  }

  function Stem(p: AbsPath): string
    requires p != []
  {
    StripExtension(Last(p))
  }

  /** A link whose extension is dropped lands next to the target, at the stem of its name. */
  lemma JoinStripped(base: AbsPath, newAbs: AbsPath)
    requires Clean(newAbs) && HasMarkdownExtension(Rel(base, newAbs))
    ensures newAbs != [] && HasMarkdownExtension(Last(newAbs))
    ensures JoinClean(base, StripExtension(Rel(base, newAbs))) == Walk(Parent(newAbs), [Stem(newAbs)])
  {
    var front, last := RelText(base, newAbs);
    StripLast(front, last);
    RelHasNoSlash(base, newAbs);
    if CommonLength(base, newAbs) == |newAbs| {
      RelDots(base, newAbs);
      assert last in RelSegments(base, newAbs);
      DotsHaveNoExtension(last);
    }
    RelFront(base, newAbs);
    assert front == RelSegments(base, newAbs)[..|RelSegments(base, newAbs)| - 1];
    assert Last(newAbs) in newAbs;
    JoinPieces(base, front, Stem(newAbs));
  }

  lemma PathPartBehind(a: string, b: string)
    requires '#' !in a
    ensures PathPart(a + b) == a + PathPart(b) && Fragment(a + b) == Fragment(b)
  {
    var i := Separated.IndexOf(b, '#');
    assert forall k :: 0 <= k < |a| + i ==> (a + b)[k] == if k < |a| then a[k] else b[k - |a|];
    assert i < |b| ==> (a + b)[|a| + i] == '#';
    assert Separated.IndexOf(a + b, '#') == |a| + i;
  }

  predicate NoLeadingSlash(s: string) {
    s == "" || s[0] != '/'
  }

  /** The prefix of a rewritten link: "/" for site-absolute ones, and none or "./" for relative ones. */
  predicate FitsStyle(prefix: string, path: string) {
    if HasPrefix(path, "/") then prefix == "/" else prefix == "" || prefix == "./"
  }

  lemma LandingOf(source: AbsPath, path: string, prefix: string, rest: string)
    requires FitsStyle(prefix, path) && NoLeadingSlash(rest)
    ensures Landing(source, prefix + rest) == JoinClean(BaseOf(source, path), PathPart(rest))
  {
    PathPartBehind(prefix, rest);
    PrefixRead(path, prefix, PathPart(rest));
    JoinDot(BaseOf(source, path), PathPart(rest));
  }

  /** How a link with a style prefix is read. */
  lemma PrefixRead(path: string, prefix: string, part: string)
    requires FitsStyle(prefix, path) && NoLeadingSlash(part)
    ensures HasPrefix(prefix + part, "/") <==> HasPrefix(path, "/")
    ensures HasPrefix(path, "/") ==> (prefix + part)[1..] == part
    ensures !HasPrefix(path, "/") ==> prefix + part == part || prefix + part == "./" + part
  {
    assert "" + part == part;
    SlashFirst(part);
    SlashFirst(prefix + part);
  }

  lemma SlashFirst(s: string)
    ensures HasPrefix(s, "/") <==> !NoLeadingSlash(s)
  {
    assert s != "" ==> s[..1] == [s[0]];
  }

  // ---------------------------------------------------------------- probing next to the target

  /** The bare name denotes the target: it is a name, no entry is there, and the extension that is tried
      first does not find another file. */
  predicate StemResolves(entries: set<AbsPath>, newAbs: AbsPath)
    requires newAbs != []
  {
    var bare := Parent(newAbs) + [Stem(newAbs)];
    && CleanSegment(Stem(newAbs))
    && !FileExists(entries, bare)
    && (HasExtension(Last(newAbs), ".md") || !FileExists(entries, WithExtension(bare, ".md")))
  }

  lemma FoldAppend(stem: string, name: string, extension: string)
    requires HasExtension(name, extension) && stem == name[..|name| - |extension|]
    requires Lower(extension) == extension
    ensures EqualFold(name, stem + extension)
  {
    assert name == stem + name[|name| - |extension|..];
    assert Lower(stem + extension) == Lower(stem) + Lower(extension);
    assert Lower(name) == Lower(stem) + Lower(name[|name| - |extension|..]);
  }

  lemma ProbeStem(entries: set<AbsPath>, newAbs: AbsPath)
    requires newAbs != [] && newAbs in entries && Clean(newAbs) && HasMarkdownExtension(Last(newAbs))
    ensures SamePath(Probe(entries, Walk(Parent(newAbs), [Stem(newAbs)])), newAbs) <==> StemResolves(entries, newAbs)
  {
    var stem, name, dir := Stem(newAbs), Last(newAbs), Parent(newAbs);
    assert name in newAbs && '/' !in stem;
    if CleanSegment(stem) {
      ProbeCleanStem(entries, newAbs);
    } else {
      WalkDots(dir, stem);
      ProbeLength(entries, Walk(dir, [stem]));
    }
  }

  lemma WalkDots(dir: AbsPath, dots: string)
    requires dots == "" || dots == "." || dots == ".."
    ensures |Walk(dir, [dots])| <= |dir|
  {
    assert [dots][1..] == [];
  }

  lemma ProbeLength(entries: set<AbsPath>, p: AbsPath)
    ensures |Probe(entries, p)| == |p|
  {
  }

  lemma ProbeCleanStem(entries: set<AbsPath>, newAbs: AbsPath)
    requires newAbs != [] && newAbs in entries && HasMarkdownExtension(Last(newAbs)) && CleanSegment(Stem(newAbs))
    ensures SamePath(Probe(entries, Walk(Parent(newAbs), [Stem(newAbs)])), newAbs) <==> StemResolves(entries, newAbs)
  {
    var stem, name, dir := Stem(newAbs), Last(newAbs), Parent(newAbs);
    assert Walk(dir, [stem]) == dir + [stem];
    assert newAbs == dir + [name];
    if HasExtension(name, ".md") {
      FoldAppend(stem, name, ".md");
      ProbeFinds(entries, dir, stem, name, ".md");
    } else {
      FoldAppend(stem, name, ".markdown");
      ProbeFinds(entries, dir, stem, name, ".markdown");
    }
  }

  /** Probing a bare name finds the file with the extension, unless something is tried before. */
  lemma ProbeFinds(entries: set<AbsPath>, dir: AbsPath, stem: string, name: string, extension: string)
    requires extension == ".md" || extension == ".markdown"
    requires dir + [name] in entries && EqualFold(name, stem + extension)
    ensures var bare := dir + [stem];
            SamePath(Probe(entries, bare), dir + [name]) <==>
            !FileExists(entries, bare) && (extension == ".md" || !FileExists(entries, WithExtension(bare, ".md")))
  {
    var bare := dir + [stem];
    assert Parent(bare) == dir && Last(bare) == stem;
    SameLast(dir, name, stem + extension);
    OtherLast(dir, stem, name);
    if extension != ".md" {
      OtherLast(dir, stem + ".md", name);
    }
  }

  lemma SameLast(dir: AbsPath, name: string, other: string)
    requires EqualFold(name, other)
    ensures SamePath(dir + [other], dir + [name])
    ensures forall entries :: dir + [name] in entries ==> FileExists(entries, dir + [other])
  {
    assert Parent(dir + [name]) == dir == Parent(dir + [other]);
  }

  lemma OtherLast(dir: AbsPath, other: string, name: string)
    requires |other| != |name|
    ensures !SamePath(dir + [other], dir + [name])
  {
    var p, q := dir + [other], dir + [name];
    assert p[|dir|] == other && q[|dir|] == name && |Lower(other)| != |Lower(name)|;
  }

  // ---------------------------------------------------------------- a '#' in the path

  predicate HashFreeFrom(p: AbsPath, c: nat) {
    forall i :: c <= i < |p| ==> '#' !in p[i]
  }

  lemma {:induction false} WalkHashFree(at: AbsPath, pieces: seq<string>, c: nat)
    requires HashFreeFrom(at, c) && Separated.AllFree(pieces, '#')
    ensures HashFreeFrom(Walk(at, pieces), c)
    decreases |pieces|
  {
    if pieces != [] {
      assert pieces[0] in pieces;
      var next := if pieces[0] == "" || pieces[0] == "." then at
                  else if pieces[0] == ".." then Parent(at) else at + [pieces[0]];
      WalkHashFree(next, pieces[1..], c);
    }
  }

  lemma FoldKeepsHash(a: string, b: string)
    requires EqualFold(a, b) && '#' in b
    ensures '#' in a
  {
    var i :| 0 <= i < |b| && b[i] == '#';
    assert LowerChar(a[i]) == Lower(a)[i] == Lower(b)[i] == '#';
  }

  lemma ProbeHashFree(entries: set<AbsPath>, p: AbsPath, c: nat)
    requires HashFreeFrom(p, c)
    ensures HashFreeFrom(Probe(entries, p), c)
  {
    assert '#' !in ".md" && '#' !in ".markdown";
  }

  /** A path without '#' in the segments from `c` on is not one that has a '#' there. */
  lemma ProbeMissesHash(entries: set<AbsPath>, p: AbsPath, newAbs: AbsPath, c: nat)
    requires HashFreeFrom(p, c) && !HashFreeFrom(newAbs, c)
    ensures !SamePath(Probe(entries, p), newAbs)
  {
    var q := Probe(entries, p);
    ProbeHashFree(entries, p, c);
    var j :| c <= j < |newAbs| && '#' in newAbs[j];
    if SamePath(q, newAbs) {
      FoldKeepsHash(q[j], newAbs[j]);
    }
  }

  /** Whatever follows the first '#' of a text below the common ancestor is cut off. */
  lemma JoinBelowCut(base: AbsPath, ups: nat, rest: string)
    requires ups <= |base|
    ensures HashFreeFrom(JoinClean(base, PathPart(Separated.Closed(Ups(ups), '/') + rest)), |base| - ups)
  {
    UpsPlain(ups);
    Separated.ClosedFree(Ups(ups), '/', '#');
    PathPartBehind(Separated.Closed(Ups(ups), '/'), rest);
    var cut := PathPart(rest);
    Separated.SplitClosed(Ups(ups), cut, '/');
    WalkAppend(base, Ups(ups), Separated.Split(cut, '/'));
    WalkUp(base, ups);
    Separated.PiecesFree(cut, '/', '#');
    WalkHashFree(base[..|base| - ups], Separated.Split(cut, '/'), |base| - ups);
  }

  /** A '#' in the relative path is in one of the target's segments below the common ancestor. */
  lemma HashIsBelow(base: AbsPath, newAbs: AbsPath)
    requires '#' in Rel(base, newAbs)
    ensures !HashFreeFrom(newAbs, CommonLength(base, newAbs))
  {
    var c := CommonLength(base, newAbs);
    if HashFreeFrom(newAbs, c) {
      UpsPlain(|base| - c);
      BelowFree(newAbs, c);
      UnsplitFree(RelSegments(base, newAbs));
    }
  }

  lemma BelowFree(newAbs: AbsPath, c: nat)
    requires c <= |newAbs| && HashFreeFrom(newAbs, c)
    ensures Separated.AllFree(newAbs[c..], '#')
  {
    forall s | s in newAbs[c..] ensures '#' !in s {
      var i :| 0 <= i < |newAbs[c..]| && newAbs[c..][i] == s;
      assert newAbs[c + i] == s;
    }
  }

  lemma {:induction false} UnsplitFree(segments: seq<string>)
    requires segments != [] && Separated.AllFree(segments, '#')
    ensures '#' !in Separated.Unsplit(segments, '/')
  {
    if |segments| > 1 {
      UnsplitFree(segments[1..]);
    }
  }

  /** The relative path to a target below the common ancestor starts by going up. */
  lemma RelGoesUp(base: AbsPath, newAbs: AbsPath) returns (ups: nat, rest: string)
    requires CommonLength(base, newAbs) < |newAbs|
    ensures ups == |base| - CommonLength(base, newAbs)
    ensures Rel(base, newAbs) == Separated.Closed(Ups(ups), '/') + rest
    ensures rest == Separated.Unsplit(newAbs[|base| - ups..], '/')
  {
    var c := CommonLength(base, newAbs);
    ups, rest := |base| - c, Separated.Unsplit(newAbs[c..], '/');
    Separated.UnsplitAppend(Ups(ups), newAbs[c..], '/');
  }

  // ---------------------------------------------------------------- the round trip

  lemma RelHead(base: AbsPath, newAbs: AbsPath) returns (head: string)
    requires Clean(newAbs)
    ensures head != "" && '/' !in head && HasPrefix(Rel(base, newAbs), head)
    ensures head == "." ==> Rel(base, newAbs) == "."
    ensures |head| < |Rel(base, newAbs)| ==> Rel(base, newAbs)[|head|] == '/'
  {
    var segments := RelSegments(base, newAbs);
    head := segments[0];
    UpsPlain(|base| - CommonLength(base, newAbs));
    assert head in segments;
    if |base| == CommonLength(base, newAbs) < |newAbs| {
      assert head == newAbs[|base|] && head in newAbs;
    }
  }

  /** A relative path is not empty and starts neither with a slash nor with "./". */
  lemma RelStart(base: AbsPath, newAbs: AbsPath)
    requires Clean(newAbs)
    ensures Rel(base, newAbs) != "" && Rel(base, newAbs)[0] != '/' && !HasPrefix(Rel(base, newAbs), "./")
  {
    var head := RelHead(base, newAbs);
    var rel := Rel(base, newAbs);
    assert rel[..|head|] == head;
    assert head[0] in head && rel[0] == head[0];
    assert |head| > 1 ==> head[1] in head && head[1] == rel[1];
    assert |rel| > 1 ==> rel[..2] == [rel[0], rel[1]];
  }

  /** What is written in place of the link's path, without the style prefix. */
  function NewPath(base: AbsPath, newAbs: AbsPath, dropExtension: bool): string {
    if dropExtension then StripExtension(Rel(base, newAbs)) else Rel(base, newAbs)
  }

  /** Exactly when the rewritten link finds the file: no '#' in its path, and if the extension is dropped,
      the bare name denotes the file. */
  predicate Retargetable(entries: set<AbsPath>, base: AbsPath, newAbs: AbsPath, dropExtension: bool)
    requires newAbs != []
  {
    && '#' !in Rel(base, newAbs)
    && (dropExtension && HasMarkdownExtension(Rel(base, newAbs)) ==> StemResolves(entries, newAbs))
  }

  lemma StripBehindPrefix(prefix: string, text: string)
    requires prefix == "" || prefix == "/" || prefix == "./"
    ensures StripExtension(prefix + text) == prefix + StripExtension(text)
    ensures HasMarkdownExtension(prefix + text) <==> HasMarkdownExtension(text)
  {
    var front := if prefix == "" then [] else if prefix == "/" then [""] else ["."];
    assert Separated.Closed(front, '/') == prefix;
    StripLast(front, text);
  }

  function StylePrefix(path: string, rel: string): string {
    if HasPrefix(path, "/") then "/"
    else if HasPrefix(path, "./") && !HasPrefix(rel, "../") then "./"
    else ""
  }

  /** The result of the rewriting: the prefix of the link's style, the new path, the old fragment. */
  lemma RewrittenForm(source: AbsPath, target: string, newAbs: AbsPath)
    requires Clean(newAbs) && !LeftAlone(target) && ComputeUpdatedLinkTarget(source, target, newAbs).Ok?
    ensures var path := PathPart(target);
            var base := BaseOf(source, path);
            var final := NewPath(base, newAbs, !HasMarkdownExtension(path));
            ComputeUpdatedLinkTarget(source, target, newAbs).value.newTarget ==
            StylePrefix(path, Rel(base, newAbs)) + final + Fragment(target)
  {
    var path := PathPart(target);
    var rel := Rel(BaseOf(source, path), newAbs);
    var prefix := StylePrefix(path, rel);
    RelStart(BaseOf(source, path), newAbs);
    StripBehindPrefix(prefix, rel);
    assert "" + rel == rel;
    assert UpdatedPath(source, newAbs, HasPrefix(path, "/"), HasPrefix(path, "./")) == Ok(prefix + rel);
  }

  lemma NewPathStart(base: AbsPath, newAbs: AbsPath, drop: bool, fragment: string)
    requires Clean(newAbs) && (fragment == "" || fragment[0] == '#')
    ensures NoLeadingSlash(NewPath(base, newAbs, drop) + fragment)
    ensures !HasPrefix(NewPath(base, newAbs, drop) + fragment, "./")
  {
    RelStart(base, newAbs);
    var rel := Rel(base, newAbs);
    StartKept(rel, if drop then |StripExtension(rel)| else |rel|, fragment);
    assert rel[..|rel|] == rel;
  }

  lemma StartKept(rel: string, n: nat, fragment: string)
    requires rel != "" && rel[0] != '/' && !HasPrefix(rel, "./") && n <= |rel|
    requires fragment == "" || fragment[0] == '#'
    ensures NoLeadingSlash(rel[..n] + fragment) && !HasPrefix(rel[..n] + fragment, "./")
  {
    var text := rel[..n] + fragment;
    assert |text| > 1 ==> text[..2] == [text[0], text[1]];
    assert |rel| > 1 ==> rel[..2] == [rel[0], rel[1]];
  }

  /** A rewritten link resolves to the moved file (up to letter case, as the fixer compares paths) if and
      only if the new location is retargetable: for every link that is rewritten at all, of any style. */
  lemma RoundTrip(entries: set<AbsPath>, source: AbsPath, target: string, newAbs: AbsPath)
    requires Clean(newAbs) && newAbs != [] && newAbs in entries
    requires !LeftAlone(target) && ComputeUpdatedLinkTarget(source, target, newAbs).Ok?
    ensures var path := PathPart(target);
            var newTarget := ComputeUpdatedLinkTarget(source, target, newAbs).value.newTarget;
            SamePath(ResolveRelativePath(entries, source, newTarget), newAbs) <==>
            Retargetable(entries, BaseOf(source, path), newAbs, !HasMarkdownExtension(path))
  {
    var path := PathPart(target);
    var base, drop := BaseOf(source, path), !HasMarkdownExtension(path);
    NewLanding(source, target, newAbs);
    if '#' in Rel(base, newAbs) {
      HashMisses(entries, base, newAbs, drop, Fragment(target));
    } else {
      HashFreeLanding(entries, base, newAbs, drop, target);
    }
  }

  lemma PrefixedLanding(source: AbsPath, path: string, prefix: string, final: string, fragment: string)
    requires FitsStyle(prefix, path) && NoLeadingSlash(final + fragment)
    ensures Landing(source, prefix + final + fragment) == JoinClean(BaseOf(source, path), PathPart(final + fragment))
  {
    assert prefix + final + fragment == prefix + (final + fragment);
    LandingOf(source, path, prefix, final + fragment);
  }

  lemma NewLanding(source: AbsPath, target: string, newAbs: AbsPath)
    requires Clean(newAbs) && !LeftAlone(target) && ComputeUpdatedLinkTarget(source, target, newAbs).Ok?
    ensures var path := PathPart(target);
            var base := BaseOf(source, path);
            Landing(source, ComputeUpdatedLinkTarget(source, target, newAbs).value.newTarget) ==
            JoinClean(base, PathPart(NewPath(base, newAbs, !HasMarkdownExtension(path)) + Fragment(target)))
  {
    var path := PathPart(target);
    var base, drop := BaseOf(source, path), !HasMarkdownExtension(path);
    RewrittenForm(source, target, newAbs);
    NewPathStart(base, newAbs, drop, Fragment(target));
    PrefixedLanding(source, path, StylePrefix(path, Rel(base, newAbs)), NewPath(base, newAbs, drop), Fragment(target));
  }

  lemma HashMisses(entries: set<AbsPath>, base: AbsPath, newAbs: AbsPath, drop: bool, fragment: string)
    requires '#' in Rel(base, newAbs)
    ensures !SamePath(Probe(entries, JoinClean(base, PathPart(NewPath(base, newAbs, drop) + fragment))), newAbs)
  {
    HashIsBelow(base, newAbs);
    var ups, tail := NewPathGoesUp(base, newAbs, drop);
    var text := NewPath(base, newAbs, drop) + fragment;
    Assoc(Separated.Closed(Ups(ups), '/'), tail, fragment);
    JoinBelowCut(base, ups, tail + fragment);
    ProbeMissesHash(entries, JoinClean(base, PathPart(text)), newAbs, |base| - ups);
  }

  lemma NewPathGoesUp(base: AbsPath, newAbs: AbsPath, drop: bool) returns (ups: nat, tail: string)
    requires CommonLength(base, newAbs) < |newAbs|
    ensures ups == |base| - CommonLength(base, newAbs)
    ensures NewPath(base, newAbs, drop) == Separated.Closed(Ups(ups), '/') + tail
  {
    var rest;
    ups, rest := RelGoesUp(base, newAbs);
    StripLast(Ups(ups), rest);
    tail := if drop then StripExtension(rest) else rest;
  }

  lemma HashFreeLanding(entries: set<AbsPath>, base: AbsPath, newAbs: AbsPath, drop: bool, target: string)
    requires Clean(newAbs) && newAbs != [] && newAbs in entries && '#' !in Rel(base, newAbs)
    ensures SamePath(Probe(entries, JoinClean(base, PathPart(NewPath(base, newAbs, drop) + Fragment(target)))), newAbs)
            <==> Retargetable(entries, base, newAbs, drop)
  {
    var final := NewPath(base, newAbs, drop);
    FragmentKept(final, target);
    if drop && HasMarkdownExtension(Rel(base, newAbs)) {
      JoinStripped(base, newAbs);
      ProbeStem(entries, newAbs);
    } else {
      JoinRel(base, newAbs);
    }
  }

  /** The link keeps its fragment, is site-absolute or starts with "./" exactly if its prefix says so, and
      has an extension exactly if the new path has one. */
  predicate KeepsStyle(newTarget: string, target: string, prefix: string, newPath: string) {
    && Fragment(newTarget) == Fragment(target)
    && (HasPrefix(newTarget, "/") <==> prefix == "/")
    && (HasPrefix(newTarget, "./") <==> prefix == "./")
    && (HasMarkdownExtension(PathPart(newTarget)) <==> HasMarkdownExtension(newPath))
  }

  /** Every rewritten link whose path has no '#' keeps the style of the original: site-absolute or
      relative, with its "./" unless "../" takes its place, and with its fragment. */
  lemma StyleKept(source: AbsPath, target: string, newAbs: AbsPath)
    requires Clean(newAbs) && !LeftAlone(target) && ComputeUpdatedLinkTarget(source, target, newAbs).Ok?
    requires '#' !in Rel(BaseOf(source, PathPart(target)), newAbs)
    ensures var path := PathPart(target);
            var base := BaseOf(source, path);
            var rel, newTarget := Rel(base, newAbs), ComputeUpdatedLinkTarget(source, target, newAbs).value.newTarget;
            && Fragment(newTarget) == Fragment(target)
            && (HasPrefix(newTarget, "/") <==> HasPrefix(path, "/"))
            && (HasPrefix(newTarget, "./") <==> HasPrefix(path, "./") && !HasPrefix(rel, "../"))
            && (HasMarkdownExtension(PathPart(newTarget)) <==>
                HasMarkdownExtension(if HasMarkdownExtension(path) then rel else StripExtension(rel)))
  {
    var path := PathPart(target);
    var base := BaseOf(source, path);
    SlashOrDot(path);
    KeepsItsStyle(source, target, newAbs);
    PrefixMeans(path, Rel(base, newAbs));
  }

  lemma PrefixMeans(path: string, rel: string)
    ensures StylePrefix(path, rel) == "/" <==> HasPrefix(path, "/")
    ensures StylePrefix(path, rel) == "./" <==> HasPrefix(path, "./") && !HasPrefix(rel, "../")
  {
    SlashOrDot(path);
  }

  lemma KeepsItsStyle(source: AbsPath, target: string, newAbs: AbsPath)
    requires Clean(newAbs) && !LeftAlone(target) && ComputeUpdatedLinkTarget(source, target, newAbs).Ok?
    requires '#' !in Rel(BaseOf(source, PathPart(target)), newAbs)
    ensures var path := PathPart(target);
            var base := BaseOf(source, path);
            KeepsStyle(ComputeUpdatedLinkTarget(source, target, newAbs).value.newTarget, target,
                       StylePrefix(path, Rel(base, newAbs)), NewPath(base, newAbs, !HasMarkdownExtension(path)))
  {
    var path := PathPart(target);
    var base := BaseOf(source, path);
    var prefix, final := StylePrefix(path, Rel(base, newAbs)), NewPath(base, newAbs, !HasMarkdownExtension(path));
    RewrittenForm(source, target, newAbs);
    NewPathStart(base, newAbs, !HasMarkdownExtension(path), Fragment(target));
    StyleOfForm(prefix, final, target);
  }

  /** A link to a document is written with an extension exactly if it was before, unless it was written
      without one and the document's name ends in two Markdown extensions. */
  lemma ExtensionStyleKept(source: AbsPath, target: string, newAbs: AbsPath)
    requires Clean(newAbs) && !LeftAlone(target) && ComputeUpdatedLinkTarget(source, target, newAbs).Ok?
    requires '#' !in Rel(BaseOf(source, PathPart(target)), newAbs)
    requires HasMarkdownExtension(Rel(BaseOf(source, PathPart(target)), newAbs))
    ensures var path := PathPart(target);
            var written := PathPart(ComputeUpdatedLinkTarget(source, target, newAbs).value.newTarget);
            (HasMarkdownExtension(written) <==> HasMarkdownExtension(path)) <==>
            HasMarkdownExtension(path) || !HasMarkdownExtension(StripExtension(Rel(BaseOf(source, path), newAbs)))
  {
    StyleKept(source, target, newAbs);
  }

  lemma SlashOrDot(s: string)
    ensures !(HasPrefix(s, "/") && HasPrefix(s, "./"))
  {
    SlashFirst(s);
    assert HasPrefix(s, "./") ==> s[..2][0] == '.';
  }

  lemma StyleOfForm(prefix: string, final: string, target: string)
    requires prefix == "" || prefix == "/" || prefix == "./"
    requires NoLeadingSlash(final + Fragment(target)) && !HasPrefix(final + Fragment(target), "./") && '#' !in final
    ensures KeepsStyle(prefix + final + Fragment(target), target, prefix, final)
  {
    StyleShown(prefix, final, Fragment(target));
    StripBehindPrefix(prefix, final);
    FragmentKept(prefix + final, target);
  }

  lemma FragmentKept(path: string, target: string)
    requires '#' !in path
    ensures PathPart(path + Fragment(target)) == path && Fragment(path + Fragment(target)) == Fragment(target)
  {
    PathPartBehind(path, Fragment(target));
    assert PathPart(Fragment(target)) == "" && Fragment(Fragment(target)) == Fragment(target);
    assert path + "" == path;
  }

  lemma StyleShown(prefix: string, final: string, fragment: string)
    requires prefix == "" || prefix == "/" || prefix == "./"
    requires NoLeadingSlash(final + fragment) && !HasPrefix(final + fragment, "./")
    ensures HasPrefix(prefix + final + fragment, "/") <==> prefix == "/"
    ensures HasPrefix(prefix + final + fragment, "./") <==> prefix == "./"
  {
    Assoc(prefix, final, fragment);
    PrefixShown(prefix, final + fragment);
  }

  lemma PrefixShown(prefix: string, rest: string)
    requires prefix == "" || prefix == "/" || prefix == "./"
    requires NoLeadingSlash(rest) && !HasPrefix(rest, "./")
    ensures HasPrefix(prefix + rest, "/") <==> prefix == "/"
    ensures HasPrefix(prefix + rest, "./") <==> prefix == "./"
  {
    var text := prefix + rest;
    if prefix == "" {
      assert text == rest;
    } else {
      assert text[0] == prefix[0] && text[..1] == [prefix[0]];
      assert prefix == "./" ==> text[..2] == "./";
    }
  }

  // ---------------------------------------------------------------- which links are rewritten

  /** The path starts with one of the four schemes, in any letter case. */
  predicate StartsWithScheme(path: string) {
    || (|path| >= 7 && Lower(path[..7]) == "http://") || (|path| >= 8 && Lower(path[..8]) == "https://")
    || (|path| >= 7 && Lower(path[..7]) == "mailto:") || (|path| >= 4 && Lower(path[..4]) == "tel:")
  }

  lemma LowerPrefix(s: string, prefix: string)
    ensures HasPrefix(Lower(s), prefix) <==> |s| >= |prefix| && Lower(s[..|prefix|]) == prefix
  {
    if |s| >= |prefix| {
      assert Lower(s)[..|prefix|] == Lower(s[..|prefix|]);
    }
  }

  lemma SchemeIff(path: string)
    ensures HasUrlScheme(path) <==> StartsWithScheme(path)
  {
    LowerPrefix(path, "http://");
    LowerPrefix(path, "https://");
    LowerPrefix(path, "mailto:");
    LowerPrefix(path, "tel:");
  }

  /** The text before the first '#', if there is one. */
  lemma PathIsBeforeHash(target: string)
    ensures target == PathPart(target) + Fragment(target) && '#' !in PathPart(target)
    ensures Fragment(target) == "" || Fragment(target)[0] == '#'
  {
    var n := Separated.IndexOf(target, '#');
    assert target == target[..n] + target[n..];
  }

  /** Some directory above the source is named "content". */
  ghost predicate UnderContent(source: AbsPath) {
    exists p: AbsPath :: p != [] && p <= Parent(source) && Last(p) == "content"
  }

  /** Which links are rewritten, read off their text. Those without a path and those with a scheme are left as
      they are. Every other one is rewritten, except a site-absolute one outside of a content directory, and
      leads to the moved file exactly if the new location is retargetable. */
  lemma RewrittenIff(entries: set<AbsPath>, source: AbsPath, path: string, fragment: string, newAbs: AbsPath)
    requires '#' !in path && (fragment == "" || fragment[0] == '#')
    requires Clean(newAbs) && newAbs != [] && newAbs in entries
    ensures var target := path + fragment;
            var updated := ComputeUpdatedLinkTarget(source, target, newAbs);
            if path == "" || StartsWithScheme(path) then
              updated == Ok(Retargeted(target, false))
            else
              && (updated.Ok? <==> (path[0] == '/' ==> UnderContent(source)))
              && (updated.Ok? ==>
                    && (updated.value.changed <==> updated.value.newTarget != target)
                    && (SamePath(ResolveRelativePath(entries, source, updated.value.newTarget), newAbs) <==>
                        Retargetable(entries, BaseOf(source, path), newAbs, !HasMarkdownExtension(path))))
  {
    var target := path + fragment;
    CutAtHash(path, fragment);
    SchemeIff(path);
    SlashFirst(path);
    SlashFirst(target);
    HashFirst(target);
    if path != "" && !StartsWithScheme(path) {
      ContentRootIff(source);
      if ComputeUpdatedLinkTarget(source, target, newAbs).Ok? {
        RoundTrip(entries, source, target, newAbs);
      }
    }
  }

  lemma CutAtHash(path: string, fragment: string)
    requires '#' !in path && (fragment == "" || fragment[0] == '#')
    ensures PathPart(path + fragment) == path && Fragment(path + fragment) == fragment
  {
    PathPartBehind(path, fragment);
    assert Separated.IndexOf(fragment, '#') == 0;
    assert PathPart(fragment) == "" && path + "" == path && Fragment(fragment) == fragment;
  }

  lemma HashFirst(target: string)
    ensures HasPrefix(target, "#") <==> target != "" && target[0] == '#'
    ensures HasPrefix(target, "#") ==> PathPart(target) == ""
  {
    assert target != "" ==> target[..1] == [target[0]];
  }

  lemma ContentRootIff(source: AbsPath)
    ensures ContentRoot(Parent(source)).Some? <==> UnderContent(source)
  {
    var root := ContentRoot(Parent(source));
    if root.Some? {
      assert root.value <= Parent(source) && Last(root.value) == "content";
    }
  }

  lemma NotAScheme(path: string)
    requires path != "" && (path[0] == '/' || path[0] == '.')
    ensures !StartsWithScheme(path)
  {
    assert forall n :: 0 < n <= |path| ==> Lower(path[..n])[0] == path[0];
  }

  /** A link with an extension gets the new path and keeps its fragment. */
  lemma Recomputed(source: AbsPath, path: string, fragment: string, newAbs: AbsPath, updated: string)
    requires '#' !in path && (fragment == "" || fragment[0] == '#')
    requires path != "" && (path[0] == '/' || path[0] == '.') && HasMarkdownExtension(path)
    requires UpdatedPath(source, newAbs, HasPrefix(path, "/"), HasPrefix(path, "./")) == Ok(updated)
    ensures ComputeUpdatedLinkTarget(source, path + fragment, newAbs) ==
            Ok(Retargeted(updated + fragment, updated + fragment != path + fragment))
  {
    CutAtHash(path, fragment);
    NotAScheme(path);
    SchemeIff(path);
    HashFirst(path + fragment);
  }

  lemma EndsInMd(stem: string)
    ensures HasMarkdownExtension(stem + ".md")
  {
    var s := stem + ".md";
    assert s[|s| - 3..] == ".md" && Lower(".md") == ".md";
  }

  /** A site-absolute link to a document gets the path below the content directory. */
  lemma SiteAbsolute(source: AbsPath, path: string, root: AbsPath, a: string, b: string)
    requires '#' !in path && path != "" && path[0] == '/' && HasMarkdownExtension(path)
    requires ContentRoot(Parent(source)) == Some(root)
    ensures var updated := "/" + (a + "/" + b);
            ComputeUpdatedLinkTarget(source, path, root + [a, b]) == Ok(Retargeted(updated, updated != path))
  {
    var updated := "/" + (a + "/" + b);
    RelOfTwo(root, root + [a, b], a, b);
    SlashFirst(path);
    SlashOrDot(path);
    Recomputed(source, path, "", root + [a, b], updated);
    assert path + "" == path && updated + "" == updated;
  }

  lemma SiteAbsoluteLink(source: AbsPath, newAbs: AbsPath)
    requires source == ["repo", "content", "a.md"] && newAbs == ["repo", "content", "guide", "c.md"]
    ensures ComputeUpdatedLinkTarget(source, "/docs/b.md", newAbs) == Ok(Retargeted("/guide/c.md", true))
  {
    var dir := ["repo", "content"];
    assert Parent(source) == dir && newAbs == dir + ["guide", "c.md"];
    assert ContentRoot(dir) == Some(dir);
    EndsInMd("/docs/b");
    SiteAbsolute(source, "/docs/b" + ".md", dir, "guide", "c.md");
    SameLiteral();
  }

  lemma SameLiteral()
    ensures "/docs/b" + ".md" == "/docs/b.md" && "/" + ("guide" + "/" + "c.md") == "/guide/c.md"
    ensures "/guide/c.md" != "/docs/b.md"
  {
    assert "/guide/c.md"[1] != "/docs/b.md"[1];
  }

  lemma RelOfTwo(base: AbsPath, newAbs: AbsPath, a: string, b: string)
    requires newAbs == base + [a, b]
    ensures Rel(base, newAbs) == a + "/" + b
  {
    PrefixCommon(base, newAbs);
    assert newAbs[|base|..] == [a, b];
    assert RelSegments(base, newAbs) == [a, b];
    assert [a, b][1..] == [b] && Separated.Unsplit([b], '/') == b;
    assert Separated.Unsplit([a, b], '/') == a + ['/'] + b;
  }

  /** A link that starts with "./" to a document in the same directory. */
  lemma DotSlash(source: AbsPath, path: string, fragment: string, name: string)
    requires '#' !in path && HasPrefix(path, "./") && HasMarkdownExtension(path) && CleanSegment(name)
    requires fragment == "" || fragment[0] == '#'
    ensures var updated := "./" + name;
            ComputeUpdatedLinkTarget(source, path + fragment, Parent(source) + [name]) ==
            Ok(Retargeted(updated + fragment, updated + fragment != path + fragment))
  {
    var newAbs := Parent(source) + [name];
    assert Parent(newAbs) == Parent(source) && Last(newAbs) == name;
    SiblingRel(newAbs);
    SlashOrDot(path);
    assert path[..2][0] == '.';
    NoSlashSecond(name);
    Recomputed(source, path, fragment, newAbs, "./" + name);
  }

  lemma NoSlashSecond(name: string)
    requires '/' !in name
    ensures !HasPrefix(name, "./") && !HasPrefix(name, "../")
  {
    assert |name| >= 2 ==> name[1] in name && name[..2][1] == name[1];
    assert |name| >= 3 ==> name[2] in name && name[..3][2] == name[2];
  }

  lemma DotSlashLink(source: AbsPath)
    requires source == ["docs", "a.md"]
    ensures ComputeUpdatedLinkTarget(source, "./b.md#x", ["docs", "c.md"]) == Ok(Retargeted("./c.md#x", true))
  {
    EndsInMd("./b");
    DotSlash(source, "./b" + ".md", "#x", "c.md");
    assert Parent(source) + ["c.md"] == ["docs", "c.md"];
    DotSlashLiteral();
  }

  lemma DotSlashLiteral()
    ensures "./b" + ".md" + "#x" == "./b.md#x" && "./" + "c.md" + "#x" == "./c.md#x" && "./c.md#x" != "./b.md#x"
  {
    assert "./c.md#x"[2] != "./b.md#x"[2];
  }

  // ---------------------------------------------------------------- links that miss

  /** The link is rewritten, and the new text does not resolve to the moved file. */
  ghost predicate Misses(entries: set<AbsPath>, source: AbsPath, target: string, newAbs: AbsPath) {
    && newAbs in entries && !LeftAlone(target) && ComputeUpdatedLinkTarget(source, target, newAbs).Ok?
    && var newTarget := ComputeUpdatedLinkTarget(source, target, newAbs).value.newTarget;
       !SamePath(ResolveRelativePath(entries, source, newTarget), newAbs)
  }

  /** A link "x" or "x.md" to a file in the same directory. */
  lemma SiblingLink(entries: set<AbsPath>, source: AbsPath, target: string, newAbs: AbsPath)
    requires Clean(newAbs) && newAbs != [] && newAbs in entries && source != [] && Parent(source) == Parent(newAbs)
    requires target == "x" || target == "x.md"
    ensures Rel(Parent(newAbs), newAbs) == Last(newAbs)
    ensures Misses(entries, source, target, newAbs) <==>
            '#' in Last(newAbs)
            || (target == "x" && HasMarkdownExtension(Last(newAbs)) && !StemResolves(entries, newAbs))
  {
    SiblingRel(newAbs);
    PlainLink(target);
    RoundTrip(entries, source, target, newAbs);
  }

  lemma SiblingRel(p: AbsPath)
    requires p != []
    ensures Rel(Parent(p), p) == Last(p)
  {
    PrefixCommon(Parent(p), p);
    assert p[|p| - 1..] == [Last(p)];
    assert RelSegments(Parent(p), p) == [Last(p)];
  }

  lemma {:induction false} PrefixCommon(a: AbsPath, b: AbsPath)
    requires a <= b
    ensures CommonLength(a, b) == |a|
  {
    if a != [] {
      PrefixCommon(a[1..], b[1..]);
    }
  }

  lemma PlainLink(target: string)
    requires target == "x" || target == "x.md"
    ensures !LeftAlone(target) && PathPart(target) == target && !HasPrefix(target, "/") && !HasPrefix(target, "./")
    ensures HasMarkdownExtension(target) <==> target == "x.md"
  {
    assert Separated.IndexOf(target, '#') == |target| && PathPart(target) == target;
    NoScheme(target);
    assert target == "x.md" ==> target[|target| - 3..] == ".md" && Lower(".md") == ".md";
  }

  lemma NoScheme(target: string)
    requires target != "" && target[0] == 'x'
    ensures !HasUrlScheme(target) && !HasPrefix(target, "#") && !HasPrefix(target, "/") && !HasPrefix(target, "./")
  {
    assert Lower(target)[0] == 'x';
  }

  lemma CleanPair(p: AbsPath, a: string, b: string)
    requires p == [a, b] && CleanSegment(a) && CleanSegment(b)
    ensures Clean(p)
  {
  }

  /** A link "x" to a file in the same directory whose bare name does not denote it. */
  lemma StemMisses(entries: set<AbsPath>, source: AbsPath, newAbs: AbsPath)
    requires Clean(newAbs) && newAbs != [] && newAbs in entries && source != [] && Parent(source) == Parent(newAbs)
    requires HasMarkdownExtension(Last(newAbs)) && !StemResolves(entries, newAbs)
    ensures Misses(entries, source, "x", newAbs)
  {
    SiblingLink(entries, source, "x", newAbs);
  }

  /** A '#' in the name of the moved file. */
  lemma HashMissesFile(source: AbsPath, newAbs: AbsPath)
    requires source == ["docs", "a.md"] && newAbs == ["docs", "c#.md"]
    ensures Misses({newAbs}, source, "x.md", newAbs)
  {
    assert Last(newAbs)[1] == '#';
    CleanPair(newAbs, "docs", "c#.md");
    SiblingLink({newAbs}, source, "x.md", newAbs);
  }

  /** A directory of the same name without the extension. */
  lemma BareNameMissesFile(source: AbsPath, newAbs: AbsPath, other: AbsPath)
    requires source == ["docs", "a.md"] && newAbs == ["docs", "c.md"] && other == ["docs", "c"]
    ensures Misses({newAbs, other}, source, "x", newAbs)
  {
    StemOf(newAbs, "c", ".md");
    CleanPair(newAbs, "docs", "c.md");
    assert Parent(newAbs) + ["c"] == other;
    StemMisses({newAbs, other}, source, newAbs);
  }

  /** A ".md" file beside the moved ".markdown" file. */
  lemma MdSiblingMissesFile(source: AbsPath, newAbs: AbsPath, other: AbsPath)
    requires source == ["docs", "a.md"] && newAbs == ["docs", "c.markdown"] && other == ["docs", "c.md"]
    ensures Misses({newAbs, other}, source, "x", newAbs)
  {
    StemOf(newAbs, "c", ".markdown");
    CleanPair(newAbs, "docs", "c.markdown");
    assert "c" + ".md" == "c.md";
    TriedFirst({newAbs, other}, newAbs, "docs", "c");
    StemMisses({newAbs, other}, source, newAbs);
  }

  lemma TriedFirst(entries: set<AbsPath>, newAbs: AbsPath, dir: string, stem: string)
    requires |newAbs| == 2 && newAbs[0] == dir && Stem(newAbs) == stem && !HasExtension(Last(newAbs), ".md")
    requires [dir, stem + ".md"] in entries
    ensures !StemResolves(entries, newAbs)
  {
    var bare := [dir] + [stem];
    assert Parent(newAbs) == [dir] && Parent(bare) == [dir] && Last(bare) == stem;
    assert WithExtension(bare, ".md") == [dir, stem + ".md"];
  }

  /** A name whose stem is a dot. */
  lemma DotStemMissesFile(source: AbsPath, newAbs: AbsPath)
    requires source == ["docs", "a.md"] && newAbs == ["docs", "..md"]
    ensures Misses({newAbs}, source, "x", newAbs)
  {
    StemOf(newAbs, ".", ".md");
    CleanPair(newAbs, "docs", "..md");
    StemMisses({newAbs}, source, newAbs);
  }

  lemma StemOf(p: AbsPath, stem: string, extension: string)
    requires p != [] && Last(p) == stem + extension && (extension == ".md" || extension == ".markdown")
    ensures HasMarkdownExtension(Last(p)) && Stem(p) == stem
    ensures extension == ".markdown" ==> !HasExtension(Last(p), ".md")
  {
    var name := Last(p);
    assert name[|name| - |extension|..] == extension && name[..|stem|] == stem;
    assert Lower(extension) == extension;
    assert extension == ".markdown" ==> name[|name| - 3..] == "own" && Lower("own") == "own";
  }
}
