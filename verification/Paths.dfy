/** Clean absolute slash-separated paths as sequences of segments, and the path functions of the source
    on them: cleaning, joining and relative paths. Letter case is folded for ASCII. */
module Paths {
  import opened Common
  import Separated

  /** The segments of a clean absolute path; the root has none. */
  type AbsPath = seq<string>

  predicate CleanSegment(s: string) {
    s != "" && s != "." && s != ".." && '/' !in s
  }

  predicate Clean(p: AbsPath) {
    forall s :: s in p ==> CleanSegment(s)
  }

  function Parent(p: AbsPath): AbsPath {
    if p == [] then [] else p[..|p| - 1]
  }

  // ---------------------------------------------------------------- cleaning and joining

  /** Pieces of a path text walked from a directory: empty and "." pieces stay, ".." goes up. */
  function Walk(at: AbsPath, pieces: seq<string>): AbsPath
    decreases |pieces|
  {
    if pieces == [] then at
    else if pieces[0] == "" || pieces[0] == "." then Walk(at, pieces[1..])
    else if pieces[0] == ".." then Walk(Parent(at), pieces[1..])
    else Walk(at + [pieces[0]], pieces[1..])
  }

  /** Joining a clean directory with a path text and cleaning the result. */
  function JoinClean(dir: AbsPath, text: string): AbsPath {
    Walk(dir, Separated.Split(text, '/'))
  }

  lemma {:induction false} WalkAppend(at: AbsPath, a: seq<string>, b: seq<string>)
    ensures Walk(at, a + b) == Walk(Walk(at, a), b)
    decreases |a|
  {
    if a == [] {
      assert a + b == b;
    } else {
      assert (a + b)[1..] == a[1..] + b;
      var next := if a[0] == "" || a[0] == "." then at else if a[0] == ".." then Parent(at) else at + [a[0]];
      WalkAppend(next, a[1..], b);
    }
  }

  lemma {:induction false} WalkDown(at: AbsPath, segments: seq<string>)
    requires Clean(segments)
    ensures Walk(at, segments) == at + segments
    decreases |segments|
  {
    if segments != [] {
      assert segments[0] in segments;
      WalkDown(at + [segments[0]], segments[1..]);
      assert at + [segments[0]] + segments[1..] == at + segments;
    }
  }

  function Ups(k: nat): seq<string> {
    if k == 0 then [] else [".."] + Ups(k - 1)
  }

  lemma {:induction false} WalkUp(at: AbsPath, k: nat)
    requires k <= |at|
    ensures Walk(at, Ups(k)) == at[..|at| - k]
    decreases k
  {
    if k > 0 {
      WalkUp(Parent(at), k - 1);
    }
  }

  // ---------------------------------------------------------------- relative paths

  function CommonLength(a: AbsPath, b: AbsPath): (c: nat)
    ensures c <= |a| && c <= |b| && a[..c] == b[..c]
    ensures c < |a| && c < |b| ==> a[c] != b[c]
  {
    if a == [] || b == [] || a[0] != b[0] then 0 else 1 + CommonLength(a[1..], b[1..])
  }

  /** Up to the common ancestor, then down; "." between equal paths. */
  function RelSegments(base: AbsPath, target: AbsPath): (segments: seq<string>)
    ensures segments != []
  {
    var c := CommonLength(base, target);
    var segments := Ups(|base| - c) + target[c..];
    if segments == [] then ["."] else segments
  }

  function Rel(base: AbsPath, target: AbsPath): string {
    Separated.Unsplit(RelSegments(base, target), '/')
  }

  lemma {:induction false} UpsPlain(k: nat)
    ensures |Ups(k)| == k && forall s :: s in Ups(k) ==> s == ".."
  {
    if k > 0 {
      UpsPlain(k - 1);
    }
  }

  /** Walking a relative path from its base leads to the target. */
  lemma WalkRel(base: AbsPath, target: AbsPath)
    requires Clean(target)
    ensures Walk(base, RelSegments(base, target)) == target
  {
    WalkUpDown(base, target, CommonLength(base, target));
    UpsPlain(|base| - CommonLength(base, target));
  }

  lemma DownLast(ups: seq<string>, target: AbsPath, c: nat)
    requires c < |target|
    ensures ups + target[c..] == ups + target[c..|target| - 1] + [Last(target)]
    ensures ups + target[c..] != []
  {
    assert target[c..] == target[c..|target| - 1] + [Last(target)];
  }

  lemma FrontAndLast<T>(front: seq<T>, x: T)
    ensures (front + [x])[..|front + [x]| - 1] == front && Last(front + [x]) == x
  {
  }

  lemma CleanFrom(target: AbsPath, c: nat)
    requires c <= |target| && Clean(target)
    ensures Clean(target[c..])
  {
    assert forall s :: s in target[c..] ==> s in target;
  }

  lemma PrefixAndRest(base: AbsPath, target: AbsPath, c: nat)
    requires c <= |base| && c <= |target| && base[..c] == target[..c]
    ensures base[..c] + target[c..] == target
  {
  }

  lemma ParentFrom(base: AbsPath, target: AbsPath, c: nat)
    requires c < |target| && c <= |base| && base[..c] == target[..c] && Clean(target)
    ensures c <= |Parent(target)| && base[..c] == Parent(target)[..c] && Clean(Parent(target))
    ensures Parent(target)[c..] == target[c..|target| - 1]
  {
    assert target[..|target| - 1][..c] == target[..c];
  }

  lemma WalkUpDown(base: AbsPath, target: AbsPath, c: nat)
    requires c <= |base| && c <= |target| && base[..c] == target[..c] && Clean(target)
    ensures Walk(base, Ups(|base| - c) + target[c..]) == target
  {
    WalkUp(base, |base| - c);
    WalkAppend(base, Ups(|base| - c), target[c..]);
    CleanFrom(target, c);
    WalkDown(base[..c], target[c..]);
    PrefixAndRest(base, target, c);
  }

  lemma FrontWalk(base: AbsPath, target: AbsPath, c: nat)
    requires c < |target| && c <= |base| && base[..c] == target[..c] && Clean(target)
    ensures Walk(base, Ups(|base| - c) + target[c..|target| - 1]) == Parent(target)
  {
    ParentFrom(base, target, c);
    WalkUpDown(base, Parent(target), c);
  }

  lemma RelBelow(base: AbsPath, target: AbsPath, c: nat)
    requires c == CommonLength(base, target) < |target|
    ensures RelSegments(base, target) == Ups(|base| - c) + target[c..|target| - 1] + [Last(target)]
  {
    DownLast(Ups(|base| - c), target, c);
  }

  /** Below the common ancestor, all but the last piece of a relative path lead to the parent of the
      target, and the last piece is the target's last segment. */
  lemma RelFront(base: AbsPath, target: AbsPath)
    requires Clean(target) && CommonLength(base, target) < |target|
    ensures var segments := RelSegments(base, target);
            Last(segments) == Last(target) && Walk(base, segments[..|segments| - 1]) == Parent(target)
  {
    var c := CommonLength(base, target);
    var front := Ups(|base| - c) + target[c..|target| - 1];
    RelBelow(base, target, c);
    FrontAndLast(front, Last(target));
    FrontWalk(base, target, c);
  }

  /** The relative path to the base itself or to an ancestor of it ends in dots. */
  lemma RelDots(base: AbsPath, target: AbsPath)
    requires CommonLength(base, target) == |target|
    ensures forall s :: s in RelSegments(base, target) ==> s == "." || s == ".."
  {
    UpsPlain(|base| - |target|);
    assert target[|target|..] == [];
  }

  lemma RelHasNoSlash(base: AbsPath, target: AbsPath)
    requires Clean(target)
    ensures Separated.AllFree(RelSegments(base, target), '/')
  {
    var c := CommonLength(base, target);
    UpsPlain(|base| - c);
    forall s | s in RelSegments(base, target) ensures '/' !in s {
      if s in target[c..] {
        assert s in target;
      } else {
        assert s == "." || s in Ups(|base| - c);
      }
    }
  }

  // ---------------------------------------------------------------- letter case

  function LowerChar(c: char): char {
    if 'A' <= c <= 'Z' then (c as int + 32) as char else c
  }

  function Lower(s: string): (r: string)
    ensures |r| == |s| && forall i :: 0 <= i < |s| ==> r[i] == LowerChar(s[i])
  {
    seq(|s|, i requires 0 <= i < |s| => LowerChar(s[i]))
  }

  predicate EqualFold(a: string, b: string) {
    Lower(a) == Lower(b)
  }

  /** Paths that differ in letter case only. */
  predicate SamePath(p: AbsPath, q: AbsPath) {
    |p| == |q| && forall i :: 0 <= i < |p| ==> EqualFold(p[i], q[i])
  }

  // ---------------------------------------------------------------- files

  /** A path exists as it is, or its directory holds a name that differs in letter case only. */
  predicate FileExists(entries: set<AbsPath>, p: AbsPath) {
    || p == []
    || p in entries
    || exists e :: e in entries && e != [] && Parent(e) == Parent(p) && EqualFold(Last(e), Last(p))
  }

  /** The path text with an extension appended. */
  function WithExtension(p: AbsPath, extension: string): AbsPath {
    if p == [] then [extension] else Parent(p) + [Last(p) + extension]
  }
}
