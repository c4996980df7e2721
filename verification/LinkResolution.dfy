/** What becomes of the links to a file that has moved: which are found, what they are rewritten to, and
    which of them lead to the file afterwards. */
module LinkResolution {
  import opened Common
  import opened Paths
  import opened LinkTargets
  import Bytes
  import Separated

  /** The first occurrence is replaced, if there is one. */
  function ReplaceFirst(s: string, name: string, replacement: string): string {
    var at := Bytes.Index(s, name);
    if at.None? then s else s[..at.value] + replacement + s[at.value + |name|..]
  }

  lemma ReplaceFirstIs(s: string, name: string, replacement: string)
    ensures (exists n: nat :: FirstAt(s, name, n)) ||
            (ReplaceFirst(s, name, replacement) == s && forall n: nat :: !Bytes.OccursAt(s, name, n))
    ensures forall n: nat :: FirstAt(s, name, n) ==>
              ReplaceFirst(s, name, replacement) == s[..n] + replacement + s[n + |name|..]
  {
    var at := Bytes.Index(s, name);
    if at.Some? {
      assert FirstAt(s, name, at.value);
    }
  }

  ghost predicate FirstAt(s: string, name: string, n: nat) {
    Bytes.OccursAt(s, name, n) && forall k: nat :: k < n ==> !Bytes.OccursAt(s, name, k)
  }

  /** The link text leads to the file, up to letter case. */
  predicate LeadsTo(entries: set<AbsPath>, source: AbsPath, text: string, file: AbsPath) {
    SamePath(ResolveRelativePath(entries, source, text), file)
  }

  /** The new text of a link: retargeted if it leads to the old path and changes, and otherwise with the
      name of the old file replaced. */
  function UpdateLinkTarget(entries: set<AbsPath>, source: AbsPath, target: string, fragment: string,
                            oldAbs: AbsPath, newAbs: AbsPath): string
    requires oldAbs != [] && newAbs != []
  {
    var updated := ComputeUpdatedLinkTarget(source, target + fragment, newAbs);
    if LeadsTo(entries, source, target + fragment, oldAbs) && updated.Ok? && updated.value.changed
    then updated.value.newTarget
    else ReplaceFirst(target, Last(oldAbs), Last(newAbs)) + fragment
  }

  // ---------------------------------------------------------------- which links are found

  lemma SamePathSymmetric(p: AbsPath, q: AbsPath)
    ensures SamePath(p, q) <==> SamePath(q, p)
  {
    if SamePath(p, q) || SamePath(q, p) {
      assert forall i :: 0 <= i < |p| && |p| == |q| ==> (EqualFold(p[i], q[i]) <==> EqualFold(q[i], p[i]));
    }
  }

  lemma SamePathTransitive(p: AbsPath, q: AbsPath, r: AbsPath)
    requires SamePath(p, q) && SamePath(q, r)
    ensures SamePath(p, r)
  {
    forall i | 0 <= i < |p| ensures EqualFold(p[i], r[i]) {
      assert EqualFold(p[i], q[i]) && EqualFold(q[i], r[i]);
    }
  }

  /** A path with an extension appended is no longer the same path. */
  lemma LongerName(p: AbsPath, q: AbsPath, extension: string)
    requires p != [] && extension != "" && SamePath(p, q)
    ensures !SamePath(WithExtension(p, extension), q)
  {
    var n := |p| - 1;
    var longer := WithExtension(p, extension);
    assert longer[n] == p[n] + extension && EqualFold(p[n], q[n]);
    assert |Lower(longer[n])| > |Lower(q[n])|;
  }

  /** A link that names the file in full still leads to it when it is gone, unless only a file with one
      more extension exists. */
  lemma FullNameFound(entries: set<AbsPath>, source: AbsPath, text: string, file: AbsPath)
    requires file != [] && SamePath(Landing(source, text), file)
    ensures var p := Landing(source, text);
            LeadsTo(entries, source, text, file) <==>
            FileExists(entries, p)
            || (!FileExists(entries, WithExtension(p, ".md")) && !FileExists(entries, WithExtension(p, ".markdown")))
  {
    var p := Landing(source, text);
    LongerName(p, file, ".md");
    LongerName(p, file, ".markdown");
  }

  /** A link that leaves the extension out leads to the file only as long as an entry has its name, up to
      letter case: once the file has been renamed to another name, the link is not found any more. */
  lemma StemNotFound(entries: set<AbsPath>, source: AbsPath, text: string, file: AbsPath)
    requires file != [] && !SamePath(Landing(source, text), file)
    requires forall e :: e in entries ==> !SamePath(e, file)
    ensures !LeadsTo(entries, source, text, file)
  {
    var found := ResolveRelativePath(entries, source, text);
    if SamePath(found, file) && FileExists(entries, found) {
      var e := EntryLike(entries, found);
      SamePathTransitive(e, found, file);
    }
  }

  /** An entry that stands for the existing path. */
  lemma EntryLike(entries: set<AbsPath>, p: AbsPath) returns (e: AbsPath)
    requires p != [] && FileExists(entries, p)
    ensures e in entries && SamePath(e, p)
  {
    if p in entries {
      e := p;
    } else {
      e :| e in entries && e != [] && Parent(e) == Parent(p) && EqualFold(Last(e), Last(p));
      assert e == Parent(e) + [Last(e)] && p == Parent(p) + [Last(p)];
    }
  }

  /** A rename to another name loses the links that leave the extension out: "x" led to "x.md" before. */
  lemma RenameLosesStemLink(source: AbsPath, oldAbs: AbsPath, newAbs: AbsPath)
    requires source == ["docs", "a.md"] && oldAbs == ["docs", "x.md"] && newAbs == ["docs", "y.md"]
    ensures LeadsTo({source, oldAbs}, source, "x", oldAbs) && !LeadsTo({source, newAbs}, source, "x", oldAbs)
  {
    LandingOfX(source);
    XLeads(source, oldAbs);
    OtherFirst("a.md", "x.md");
    OtherFirst("y.md", "x.md");
    assert Lower("x") != Lower("x.md") by { assert |Lower("x")| != |Lower("x.md")|; }
    assert ["docs", "x"][1] == "x" && oldAbs[1] == "x.md" && source[1] == "a.md" && newAbs[1] == "y.md";
    StemNotFound({source, newAbs}, source, "x", oldAbs);
  }

  lemma XLeads(source: AbsPath, oldAbs: AbsPath)
    requires source == ["docs", "a.md"] && oldAbs == ["docs", "x.md"] && Landing(source, "x") == ["docs", "x"]
    ensures LeadsTo({source, oldAbs}, source, "x", oldAbs)
  {
    var bare := ["docs", "x"];
    assert Parent(bare) == ["docs"] && Last(bare) == "x" && "x" + ".md" == "x.md";
    assert WithExtension(bare, ".md") == oldAbs;
    assert |Lower("x")| == 1 && |Lower("x.md")| == |Lower("a.md")| == 4;
    assert bare[1] == "x" && oldAbs[1] == "x.md" && source[1] == "a.md";
  }

  lemma LandingOfX(source: AbsPath)
    requires source == ["docs", "a.md"]
    ensures Landing(source, "x") == ["docs", "x"]
  {
    PlainLink("x");
    Separated.OnePiece("x", '/');
    assert Walk(["docs"], ["x"]) == ["docs", "x"];
  }

  lemma OtherFirst(a: string, b: string)
    requires a != "" && b != "" && LowerChar(a[0]) != LowerChar(b[0])
    ensures !EqualFold(a, b)
  {
    assert Lower(a)[0] == LowerChar(a[0]) && Lower(b)[0] == LowerChar(b[0]);
  }

  // ---------------------------------------------------------------- where updated links lead

  /** The link is given the retargeted text, or has it already. */
  predicate Retargeted(source: AbsPath, target: string, fragment: string, oldAbs: AbsPath, newAbs: AbsPath)
    requires oldAbs != [] && newAbs != []
  {
    var updated := ComputeUpdatedLinkTarget(source, target + fragment, newAbs);
    && !LeftAlone(target + fragment) && updated.Ok?
    && (updated.value.changed || ReplaceFirst(target, Last(oldAbs), Last(newAbs)) == target)
  }

  /** A link that leads to the old path, as all links that are found do, leads to the new one after it was
      retargeted, exactly under the conditions of the round trip. */
  lemma RetargetedLeadsIff(entries: set<AbsPath>, source: AbsPath, target: string, fragment: string,
                           oldAbs: AbsPath, newAbs: AbsPath)
    requires oldAbs != [] && Clean(newAbs) && newAbs != [] && newAbs in entries
    requires LeadsTo(entries, source, target + fragment, oldAbs)
    requires Retargeted(source, target, fragment, oldAbs, newAbs)
    ensures UpdateLinkTarget(entries, source, target, fragment, oldAbs, newAbs) ==
            ComputeUpdatedLinkTarget(source, target + fragment, newAbs).value.newTarget
    ensures var path := PathPart(target + fragment);
            LeadsTo(entries, source, UpdateLinkTarget(entries, source, target, fragment, oldAbs, newAbs), newAbs) <==>
            Retargetable(entries, BaseOf(source, path), newAbs, !HasMarkdownExtension(path))
  {
    RoundTrip(entries, source, target + fragment, newAbs);
  }

  /** A link that can neither be retargeted nor names the old file is not changed. So it still leads to the
      old path, and to the new one only if that is the same up to letter case. */
  lemma UnchangedLeadsIff(entries: set<AbsPath>, source: AbsPath, target: string, fragment: string,
                          oldAbs: AbsPath, newAbs: AbsPath)
    requires oldAbs != [] && newAbs != [] && LeadsTo(entries, source, target + fragment, oldAbs)
    requires LeftAlone(target + fragment) || ComputeUpdatedLinkTarget(source, target + fragment, newAbs).Err?
    requires ReplaceFirst(target, Last(oldAbs), Last(newAbs)) == target
    ensures UpdateLinkTarget(entries, source, target, fragment, oldAbs, newAbs) == target + fragment
    ensures LeadsTo(entries, source, target + fragment, newAbs) <==> SamePath(oldAbs, newAbs)
  {
    var found := ResolveRelativePath(entries, source, target + fragment);
    SamePathSymmetric(found, oldAbs);
    if SamePath(found, newAbs) {
      SamePathTransitive(oldAbs, found, newAbs);
    }
    if SamePath(oldAbs, newAbs) {
      SamePathTransitive(found, oldAbs, newAbs);
    }
  }

  /** Joining a directory text that ends in a slash, or is empty, with a name. */
  lemma JoinName(base: AbsPath, front: string, name: string)
    requires (front == "" || Last(front) == '/') && CleanSegment(name)
    ensures JoinClean(base, front + name) == JoinClean(base, front) + [name]
  {
    var pieces := Separated.ClosedPieces(front, '/');
    Separated.SplitClosed(pieces, name, '/');
    Separated.SplitClosed(pieces, "", '/');
    Separated.OnePiece(name, '/');
    Separated.OnePiece("", '/');
    assert Separated.Closed(pieces, '/') + "" == front;
    WalkAppend(base, pieces, [name]);
    WalkAppend(base, pieces, [""]);
    assert [name][1..] == [] && [""][1..] == [];
  }

  lemma LandingInDirectory(source: AbsPath, front: string, name: string, fragment: string)
    requires (front == "" || Last(front) == '/') && CleanSegment(name) && '#' !in front && '#' !in name
    requires fragment == "" || fragment[0] == '#'
    ensures Landing(source, front + name + fragment) == Landing(source, front) + [name]
  {
    var path := front + name;
    PathPartBehind(path, fragment);
    PathPartBehind(front, "");
    assert PathPart(fragment) == "" && PathPart("") == "" && path + "" == path && front + "" == front;
    SlashFirst(path);
    SlashFirst(front);
    var base := BaseOf(source, path);
    if HasPrefix(path, "/") {
      assert front != "" && path[0] == front[0] && path[1..] == front[1..] + name;
      assert front[1..] != "" ==> Last(front[1..]) == Last(front);
      JoinName(base, front[1..], name);
    } else {
      JoinName(base, front, name);
    }
  }

  /** The path ends in this file name, and the name does not occur in it before. */
  predicate EndsInName(target: string, name: string) {
    var n := |target| - |name|;
    0 <= n && Bytes.Index(target, name) == Some(n) && (n == 0 || target[n - 1] == '/')
  }

  lemma NameReplaced(target: string, name: string, replacement: string) returns (front: string)
    requires EndsInName(target, name)
    ensures target == front + name && ReplaceFirst(target, name, replacement) == front + replacement
    ensures (front == "" || Last(front) == '/') && forall c :: c in front ==> c in target
  {
    var n := |target| - |name|;
    front := target[..n];
    assert target == front + target[n..] && target[n + |name|..] == "";
  }

  /** A link that is not retargeted and ends in the name of the old file leads to the directory that it
      led to before, and there to the name of the new file: to the new path exactly if that is its
      directory, unless only a file with one more extension exists there. */
  lemma FallbackLeadsIff(entries: set<AbsPath>, source: AbsPath, target: string, fragment: string,
                         oldAbs: AbsPath, newAbs: AbsPath)
    requires oldAbs != [] && newAbs != [] && CleanSegment(Last(oldAbs)) && CleanSegment(Last(newAbs))
    requires EndsInName(target, Last(oldAbs)) && '#' !in target && (fragment == "" || fragment[0] == '#')
    requires LeftAlone(target + fragment) || ComputeUpdatedLinkTarget(source, target + fragment, newAbs).Err?
    requires '#' !in Last(newAbs)
    ensures var text := UpdateLinkTarget(entries, source, target, fragment, oldAbs, newAbs);
            var directory := Parent(Landing(source, target + fragment));
            var p := directory + [Last(newAbs)];
            && Landing(source, text) == p && Fragment(text) == fragment
            && (LeadsTo(entries, source, text, newAbs) <==>
                && SamePath(directory, Parent(newAbs))
                && (FileExists(entries, p)
                    || (!FileExists(entries, WithExtension(p, ".md"))
                        && !FileExists(entries, WithExtension(p, ".markdown")))))
  {
    var front := NameReplaced(target, Last(oldAbs), Last(newAbs));
    var text := front + Last(newAbs) + fragment;
    assert UpdateLinkTarget(entries, source, target, fragment, oldAbs, newAbs) == text;
    LandingInDirectory(source, front, Last(oldAbs), fragment);
    LandingInDirectory(source, front, Last(newAbs), fragment);
    CutAtHash(front + Last(newAbs), fragment);
    InDirectoryIff(entries, source, text, Landing(source, front), newAbs);
  }

  lemma InDirectoryIff(entries: set<AbsPath>, source: AbsPath, text: string, directory: AbsPath, newAbs: AbsPath)
    requires newAbs != [] && Landing(source, text) == directory + [Last(newAbs)]
    ensures var p := directory + [Last(newAbs)];
            LeadsTo(entries, source, text, newAbs) <==>
            && SamePath(directory, Parent(newAbs))
            && (FileExists(entries, p)
                || (!FileExists(entries, WithExtension(p, ".md"))
                    && !FileExists(entries, WithExtension(p, ".markdown"))))
  {
    var p := directory + [Last(newAbs)];
    SameDirectory(directory, newAbs);
    if SamePath(p, newAbs) {
      FullNameFound(entries, source, text, newAbs);
    } else {
      OtherName(p, newAbs, ".md");
      OtherName(p, newAbs, ".markdown");
    }
  }

  lemma SameDirectory(directory: AbsPath, file: AbsPath)
    requires file != []
    ensures SamePath(directory + [Last(file)], file) <==> SamePath(directory, Parent(file))
  {
    var p := directory + [Last(file)];
    assert file == Parent(file) + [Last(file)];
    if SamePath(p, file) {
      assert forall i :: 0 <= i < |directory| ==> p[i] == directory[i] && file[i] == Parent(file)[i];
    }
    if SamePath(directory, Parent(file)) {
      forall i | 0 <= i < |p| ensures EqualFold(p[i], file[i]) {
        if i < |directory| {
          assert EqualFold(directory[i], Parent(file)[i]);
        }
      }
    }
  }

  lemma OtherName(p: AbsPath, file: AbsPath, extension: string)
    requires p != [] && file != [] && Last(p) == Last(file) && extension != ""
    ensures !SamePath(WithExtension(p, extension), file)
  {
    var longer := WithExtension(p, extension);
    if |longer| == |file| {
      var n := |file| - 1;
      assert longer[n] == file[n] + extension && |Lower(longer[n])| > |Lower(file[n])|;
    }
  }

  // ---------------------------------------------------------------- every link that is found

  /** Exactly when a link that was found leads to the new path afterwards. */
  predicate LeadsAfterwards(entries: set<AbsPath>, source: AbsPath, target: string, fragment: string,
                            oldAbs: AbsPath, newAbs: AbsPath)
    requires oldAbs != [] && newAbs != []
  {
    var path, directory := PathPart(target + fragment), Parent(Landing(source, target + fragment));
    var p := directory + [Last(newAbs)];
    if Retargeted(source, target, fragment, oldAbs, newAbs) then
      Retargetable(entries, BaseOf(source, path), newAbs, !HasMarkdownExtension(path))
    else if ReplaceFirst(target, Last(oldAbs), Last(newAbs)) == target then
      SamePath(oldAbs, newAbs)
    else
      && SamePath(directory, Parent(newAbs))
      && (FileExists(entries, p)
          || (!FileExists(entries, WithExtension(p, ".md")) && !FileExists(entries, WithExtension(p, ".markdown"))))
  }

  /** If the fallback replaces a name, it is the one at the end of a link that cannot be retargeted. */
  predicate ReplacesFileName(source: AbsPath, target: string, fragment: string, oldAbs: AbsPath, newAbs: AbsPath)
    requires oldAbs != [] && newAbs != []
  {
    || Retargeted(source, target, fragment, oldAbs, newAbs)
    || ReplaceFirst(target, Last(oldAbs), Last(newAbs)) == target
    || (&& (LeftAlone(target + fragment) || ComputeUpdatedLinkTarget(source, target + fragment, newAbs).Err?)
        && EndsInName(target, Last(oldAbs)) && '#' !in Last(newAbs))
  }

  lemma UpdatedLeadsIff(entries: set<AbsPath>, source: AbsPath, target: string, fragment: string,
                        oldAbs: AbsPath, newAbs: AbsPath)
    requires oldAbs != [] && CleanSegment(Last(oldAbs)) && Clean(newAbs) && newAbs != [] && newAbs in entries
    requires '#' !in target && (fragment == "" || fragment[0] == '#')
    requires LeadsTo(entries, source, target + fragment, oldAbs)
    requires ReplacesFileName(source, target, fragment, oldAbs, newAbs)
    ensures LeadsTo(entries, source, UpdateLinkTarget(entries, source, target, fragment, oldAbs, newAbs), newAbs) <==>
            LeadsAfterwards(entries, source, target, fragment, oldAbs, newAbs)
  {
    if Retargeted(source, target, fragment, oldAbs, newAbs) {
      RetargetedLeadsIff(entries, source, target, fragment, oldAbs, newAbs);
    } else if ReplaceFirst(target, Last(oldAbs), Last(newAbs)) == target {
      UnchangedLeadsIff(entries, source, target, fragment, oldAbs, newAbs);
    } else {
      assert Last(newAbs) in newAbs;
      FallbackLeadsIff(entries, source, target, fragment, oldAbs, newAbs);
    }
  }
}
