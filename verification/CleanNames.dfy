/** What cleaning a file name means: a few laws that a suggested name obeys, and that leave no choice. */
module CleanNames {
  import opened Common
  import opened Paths
  import opened Filenames
  import Separated

  // ---------------------------------------------------------------- the laws

  predicate Removable(c: char) {
    !NameChar(c) && c != ' ' && !IsUpper(c)
  }

  /** Letter case does not matter. */
  ghost predicate IgnoresCase(f: string -> string) {
    forall s :: f(Lower(s)) == f(s)
  }

  /** A space is a hyphen. */
  ghost predicate SpaceIsHyphen(f: string -> string) {
    forall a, b :: SameAround(f, a, " ", "-", b)
  }

  /** Two hyphens in a row are one. */
  ghost predicate HyphensAreOne(f: string -> string) {
    forall a, b :: SameAround(f, a, "--", "-", b)
  }

  /** A character that is not allowed in a name is as good as none. */
  ghost predicate DropsOthers(f: string -> string) {
    forall a, c, b :: Removable(c) ==> SameAround(f, a, [c], "", b)
  }

  /** Hyphens and underscores at the ends do not matter. */
  ghost predicate IgnoresEnds(f: string -> string) {
    forall s, c :: IsSeparator(c) ==> SameAround(f, "", [c], "", s) && SameAround(f, s, [c], "", "")
  }

  /** A tidy name is kept. */
  ghost predicate KeepsTidy(f: string -> string) {
    forall s :: Tidy(s) ==> f(s) == s
  }

  predicate SameAround(f: string -> string, a: string, x: string, y: string, b: string) {
    f(a + x + b) == f(a + y + b)
  }

  ghost predicate CleansUp(f: string -> string) {
    IgnoresCase(f) && SpaceIsHyphen(f) && HyphensAreOne(f) && DropsOthers(f) && IgnoresEnds(f) && KeepsTidy(f)
  }

  // ---------------------------------------------------------------- the steps on concatenations

  lemma HyphenatedConcat(a: string, b: string)
    ensures Hyphenated(a + b) == Hyphenated(a) + Hyphenated(b)
  {
  }

  lemma LowerConcat(a: string, b: string)
    ensures Lower(a + b) == Lower(a) + Lower(b)
  {
  }

  lemma {:induction false} OnlyConcat(a: string, b: string)
    ensures OnlyNameChars(a + b) == OnlyNameChars(a) + OnlyNameChars(b)
  {
    if a == "" {
      assert a + b == b;
    } else {
      OnlyConcat(a[1..], b);
      assert (a + b)[1..] == a[1..] + b;
      Assoc(if NameChar(a[0]) then [a[0]] else "", OnlyNameChars(a[1..]), OnlyNameChars(b));
    }
  }

  /** What is left before hyphens are collapsed. */
  function Kept(s: string): string {
    OnlyNameChars(Hyphenated(Lower(s)))
  }

  lemma KeptConcat(a: string, b: string)
    ensures Kept(a + b) == Kept(a) + Kept(b)
  {
    LowerConcat(a, b);
    HyphenatedConcat(Lower(a), Lower(b));
    OnlyConcat(Hyphenated(Lower(a)), Hyphenated(Lower(b)));
  }

  lemma KeptThree(a: string, x: string, b: string)
    ensures Kept(a + x + b) == Kept(a) + Kept(x) + Kept(b)
  {
    KeptConcat(a, x);
    KeptConcat(a + x, b);
  }

  lemma CleanIsTrimmed(s: string)
    ensures CleanName(s) == TrimSeparators(SingleHyphens(Kept(s)))
  {
  }

  lemma KeptOne(c: char)
    ensures Kept([c]) == if Removable(c) then "" else if c == ' ' then "-" else [LowerChar(c)]
  {
    assert Lower([c]) == [LowerChar(c)];
    var d := if LowerChar(c) == ' ' then '-' else LowerChar(c);
    assert Hyphenated(Lower([c])) == [d];
    assert [d][1..] == "" && OnlyNameChars([d]) == (if NameChar(d) then [d] else "") + OnlyNameChars("");
  }

  // ---------------------------------------------------------------- collapsing and trimming

  lemma {:induction false} CollapseInside(a: string, b: string)
    ensures SingleHyphens(a + "--" + b) == SingleHyphens(a + "-" + b)
  {
    var s, t := a + "--" + b, a + "-" + b;
    if a == "" {
      assert s[1..] == t;
    } else {
      CollapseInside(a[1..], b);
      assert s[1..] == a[1..] + "--" + b && t[1..] == a[1..] + "-" + b;
      assert |s| >= 2 && |t| >= 2 && s[0] == t[0] == a[0] && s[1] == t[1];
    }
  }

  lemma {:induction false} CollapseFirst(c: char, s: string)
    requires IsSeparator(c)
    ensures SingleHyphens([c] + s) == SingleHyphens(s) || SingleHyphens([c] + s) == [c] + SingleHyphens(s)
  {
    assert ([c] + s)[1..] == s;
    assert s == "" ==> [c] + s == [c];
  }

  lemma {:induction false} CollapseLast(s: string, c: char)
    requires IsSeparator(c)
    ensures SingleHyphens(s + [c]) == SingleHyphens(s) || SingleHyphens(s + [c]) == SingleHyphens(s) + [c]
  {
    var t := s + [c];
    if |s| <= 1 {
      assert s == "" ==> t == [c];
      assert |s| == 1 ==> t == [s[0], c] && t[1..] == [c];
    } else {
      CollapseLast(s[1..], c);
      assert t[1..] == s[1..] + [c] && t[0] == s[0] && t[1] == s[1];
    }
  }

  lemma TrimFirst(c: char, s: string)
    requires IsSeparator(c)
    ensures TrimSeparators([c] + s) == TrimSeparators(s)
  {
    assert ([c] + s)[1..] == s;
  }

  lemma {:induction false} TrimLast(s: string, c: char)
    requires IsSeparator(c)
    ensures TrimSeparators(s + [c]) == TrimSeparators(s)
    decreases |s|
  {
    var t := s + [c];
    if s == "" {
      assert t == [c] && t[1..] == "";
    } else if IsSeparator(s[0]) {
      TrimLast(s[1..], c);
      assert t[1..] == s[1..] + [c];
    } else {
      assert t[..|t| - 1] == s && Last(t) == c && t[0] == s[0];
    }
  }

  // ---------------------------------------------------------------- cleaning obeys the laws

  lemma CleanIgnoresCase()
    ensures IgnoresCase(CleanName)
  {
    forall s ensures CleanName(Lower(s)) == CleanName(s) {
      assert Lower(Lower(s)) == Lower(s);
    }
  }

  lemma SameKept(a: string, x: string, y: string, b: string)
    requires Kept(x) == Kept(y)
    ensures SameAround(CleanName, a, x, y, b)
  {
    KeptThree(a, x, b);
    KeptThree(a, y, b);
    CleanIsTrimmed(a + x + b);
    CleanIsTrimmed(a + y + b);
  }

  lemma CleanHyphens(a: string, b: string)
    ensures SameAround(CleanName, a, "--", "-", b)
  {
    KeptOne('-');
    KeptConcat("-", "-");
    assert "--" == "-" + "-";
    KeptThree(a, "--", b);
    KeptThree(a, "-", b);
    CollapseInside(Kept(a), Kept(b));
    CleanIsTrimmed(a + "--" + b);
    CleanIsTrimmed(a + "-" + b);
  }

  lemma CleanEnds(s: string, c: char)
    requires IsSeparator(c)
    ensures SameAround(CleanName, "", [c], "", s) && SameAround(CleanName, s, [c], "", "")
  {
    EndsCleaned(s, c);
    EmptyAround(s, c);
  }

  lemma EmptyAround(s: string, c: char)
    ensures "" + [c] + s == [c] + s && "" + "" + s == s && s + [c] + "" == s + [c] && s + "" + "" == s
  {
  }

  lemma EndsCleaned(s: string, c: char)
    requires IsSeparator(c)
    ensures CleanName([c] + s) == CleanName(s) && CleanName(s + [c]) == CleanName(s)
  {
    KeptOne(c);
    KeptConcat([c], s);
    KeptConcat(s, [c]);
    EndsTrimmed(Kept(s), c);
    CleanIsTrimmed([c] + s);
    CleanIsTrimmed(s + [c]);
    CleanIsTrimmed(s);
  }

  lemma EndsTrimmed(s: string, c: char)
    requires IsSeparator(c)
    ensures TrimSeparators(SingleHyphens([c] + s)) == TrimSeparators(SingleHyphens(s))
    ensures TrimSeparators(SingleHyphens(s + [c])) == TrimSeparators(SingleHyphens(s))
  {
    CollapseFirst(c, s);
    CollapseLast(s, c);
    TrimFirst(c, SingleHyphens(s));
    TrimLast(SingleHyphens(s), c);
  }

  lemma CleanObeys()
    ensures CleansUp(CleanName)
  {
    CleanIgnoresCase();
    forall a, b ensures SameAround(CleanName, a, " ", "-", b) {
      KeptOne(' ');
      KeptOne('-');
      SameKept(a, " ", "-", b);
    }
    forall a, b ensures SameAround(CleanName, a, "--", "-", b) {
      CleanHyphens(a, b);
    }
    forall a, c, b | Removable(c) ensures SameAround(CleanName, a, [c], "", b) {
      KeptOne(c);
      assert Kept("") == "" by { assert Lower("") == "" && Hyphenated("") == ""; }
      SameKept(a, [c], "", b);
    }
    forall s, c | IsSeparator(c)
      ensures SameAround(CleanName, "", [c], "", s) && SameAround(CleanName, s, [c], "", "")
    {
      CleanEnds(s, c);
    }
    forall s | Tidy(s) ensures CleanName(s) == s {
      TidyStays(s);
    }
  }

  // ---------------------------------------------------------------- the laws leave no choice

  /** Step by step, every name is brought to its clean form without a change of what `f` makes of it. */
  lemma {:induction false} AnyHyphenates(f: string -> string, a: string, s: string)
    requires CleansUp(f)
    ensures f(a + Hyphenated(s)) == f(a + s)
    decreases |s|
  {
    if s != "" {
      var first, rest := [s[0]], s[1..];
      assert s == first + rest;
      HyphenatedConcat(first, rest);
      AnyHyphenates(f, a + Hyphenated(first), rest);
      Assoc(a, Hyphenated(first), Hyphenated(rest));
      Assoc(a, first, rest);
      if s[0] == ' ' {
        assert first == " " && Hyphenated(first) == "-";
        assert SameAround(f, a, " ", "-", rest);
      } else {
        assert Hyphenated(first) == first;
      }
    } else {
      assert Hyphenated(s) == s;
    }
  }

  lemma {:induction false} AnyDrops(f: string -> string, a: string, s: string)
    requires CleansUp(f) && forall c :: c in s ==> !IsUpper(c) && c != ' '
    ensures f(a + OnlyNameChars(s)) == f(a + s)
    decreases |s|
  {
    if s != "" {
      var first, rest := [s[0]], s[1..];
      var kept := if NameChar(s[0]) then first else "";
      assert s == first + rest && s[0] in s && forall c :: c in rest ==> c in s;
      AnyDrops(f, a + kept, rest);
      assert OnlyNameChars(s) == kept + OnlyNameChars(rest);
      Assoc(a, kept, OnlyNameChars(rest));
      Assoc(a, first, rest);
      if !NameChar(s[0]) {
        assert Removable(s[0]) && SameAround(f, a, [s[0]], "", rest);
      }
    }
  }

  lemma {:induction false} AnyCollapses(f: string -> string, a: string, s: string)
    requires CleansUp(f)
    ensures f(a + SingleHyphens(s)) == f(a + s)
    decreases |s|
  {
    if |s| > 1 {
      var first, rest := [s[0]], s[1..];
      assert s == first + rest;
      if s[0] == '-' && s[1] == '-' {
        AnyCollapses(f, a, rest);
        var end := s[2..];
        assert s == "--" + end && rest == "-" + end;
        Assoc(a, "--", end);
        Assoc(a, "-", end);
        assert SameAround(f, a, "--", "-", end);
      } else {
        AnyCollapses(f, a + first, rest);
        Assoc(a, first, SingleHyphens(rest));
        Assoc(a, first, rest);
      }
    }
  }

  lemma {:induction false} AnyTrims(f: string -> string, s: string)
    requires CleansUp(f)
    ensures f(TrimSeparators(s)) == f(s)
    decreases |s|
  {
    if s != "" && IsSeparator(s[0]) {
      var rest := s[1..];
      AnyTrims(f, rest);
      assert SameAround(f, "", [s[0]], "", rest);
      assert "" + [s[0]] + rest == s && "" + "" + rest == rest;
    } else if s != "" && IsSeparator(Last(s)) {
      var init := s[..|s| - 1];
      AnyTrims(f, init);
      assert SameAround(f, init, [Last(s)], "", "");
      assert init + [Last(s)] + "" == s && init + "" + "" == init;
    }
  }

  /** The suggested name is the only one that the laws allow: whatever obeys them is cleaning. */
  lemma CleaningIsUnique(f: string -> string, name: string)
    requires CleansUp(f)
    ensures f(name) == CleanName(name)
  {
    var lower := Lower(name);
    var hyphenated := Hyphenated(lower);
    var only := OnlyNameChars(hyphenated);
    AnyHyphenates(f, "", lower);
    NoUpperNoSpace(lower);
    AnyDrops(f, "", hyphenated);
    AnyCollapses(f, "", only);
    AnyTrims(f, SingleHyphens(only));
    CleanNameIsTidy(name);
    EmptyFront(lower);
    EmptyFront(hyphenated);
    EmptyFront(only);
    EmptyFront(SingleHyphens(only));
  }

  lemma EmptyFront(s: string)
    ensures "" + s == s
  {
  }

  lemma NoUpperNoSpace(lower: string)
    requires Lower(lower) == lower
    ensures forall c :: c in Hyphenated(lower) ==> !IsUpper(c) && c != ' '
  {
    forall c | c in Hyphenated(lower) ensures !IsUpper(c) && c != ' ' {
      var i :| 0 <= i < |lower| && Hyphenated(lower)[i] == c;
      assert Lower(lower)[i] == LowerChar(lower[i]);
    }
  }

  // ---------------------------------------------------------------- the whole suggestion

  ghost predicate IsLastDot(s: string, n: nat) {
    n < |s| && s[n] == '.' && forall k :: n < k < |s| ==> s[k] != '.'
  }

  /** The name of an embedded diagram, in any letter case. */
  predicate IsDiagram(s: string) {
    |s| >= 11 && (Lower(s[|s| - 11..]) == ".drawio.png" || Lower(s[|s| - 11..]) == ".drawio.svg")
  }

  lemma DiagramIff(s: string)
    ensures Whitelisted(s) <==> IsDiagram(s)
  {
    if |s| >= 11 {
      LowerEnd(s, |s| - 11);
    }
  }

  lemma LowerEnd(s: string, n: nat)
    requires n <= |s|
    ensures Lower(s)[n..] == Lower(s[n..])
  {
  }

  lemma KeptParts(filename: string)
    ensures KeptName(filename) + KeptExt(filename) == filename
  {
    if |Separated.Split(filename, '.')| >= 3 {
      ManyParts(filename, Separated.Split(filename, '.'));
    } else {
      WithoutAndExt(filename);
    }
  }

  lemma WithoutAndExt(filename: string)
    ensures WithoutExt(filename) + Ext(filename) == filename
  {
    var dot := LastDot(filename);
    if dot.Some? {
      assert filename == filename[..dot.value] + filename[dot.value..];
    } else {
      assert filename[..|filename|] + "" == filename;
    }
  }

  lemma ManyParts(filename: string, parts: seq<string>)
    requires parts == Separated.Split(filename, '.') && |parts| >= 2
    ensures Separated.Unsplit(parts[..|parts| - 1], '.') + ("." + Last(parts)) == filename
  {
    var front := parts[..|parts| - 1];
    Separated.UnsplitSplit(filename, '.');
    assert parts == front + [Last(parts)];
    UnsplitLast(front, Last(parts));
  }

  lemma {:induction false} UnsplitLast(front: seq<string>, last: string)
    requires front != []
    ensures Separated.Unsplit(front + [last], '.') == Separated.Unsplit(front, '.') + ("." + last)
  {
    var all := front + [last];
    if |front| == 1 {
      assert all == [front[0], last] && all[1..] == [last];
    } else {
      UnsplitLast(front[1..], last);
      assert all[0] == front[0] && all[1..] == front[1..] + [last];
      Assoc(front[0] + ['.'], Separated.Unsplit(front[1..], '.'), "." + last);
    }
  }

  /** What is suggested: a diagram keeps its name; of any other name, the part before the last dot is cleaned
      and the rest is put in lower case. */
  lemma SuggestionIs(filename: string)
    requires '/' !in filename
    ensures IsDiagram(filename) ==> SuggestFilename(filename) == filename
    ensures !IsDiagram(filename) && '.' !in filename ==> SuggestFilename(filename) == CleanName(filename)
    ensures !IsDiagram(filename) ==> forall n: nat :: IsLastDot(filename, n) ==>
              SuggestFilename(filename) == CleanName(filename[..n]) + Lower(filename[n..])
  {
    DiagramIff(filename);
    KeptParts(filename);
    ExtIsLastPart(filename);
    var name, ext := KeptName(filename), KeptExt(filename);
    var dot := LastDot(filename);
    if dot.None? {
      assert ext == "" && name + "" == name && Lower(ext) == "";
      assert CleanName(name) + Lower(ext) == CleanName(filename);
    } else {
      assert ext == filename[dot.value..];
      assert filename == filename[..dot.value] + ext;
      SameFront(name, filename[..dot.value], ext);
    }
  }

  lemma SameFront(a: string, b: string, c: string)
    requires a + c == b + c
    ensures a == b
  {
    assert |a| == |b|;
    assert a == (a + c)[..|a|] && b == (b + c)[..|b|];
  }

  /** The two index files are exempt, and not every name that starts with an underscore. */
  lemma IndexFiles()
    ensures !HasFilenameIssue("_index.md") && !HasFilenameIssue("_index.markdown") && HasFilenameIssue("_index.txt")
  {
    UnderscoreFirst("_index", "txt");
    assert "_index" + ['.'] + "txt" == "_index.txt";
  }

  lemma UnderscoreFirst(name: string, ext: string)
    requires name != "" && name[0] == '_'
    requires name + ['.'] + ext != "_index.md" && name + ['.'] + ext != "_index.markdown"
    requires '.' !in ext && '/' !in ext && ext != "" && LowerChar(Last(ext)) != 'g'
    ensures HasFilenameIssue(name + ['.'] + ext)
  {
    var filename := name + ['.'] + ext;
    NotWhitelisted(filename);
    LastDotBehind(name, ext);
    assert WithoutExt(filename)[0] == '_';
  }

  /** The characters that a name may have. */
  lemma AllowedCharacters(c: char)
    ensures ValidChar(c) <==> c in "abcdefghijklmnopqrstuvwxyz" || c in "0123456789" || c in "-_."
    ensures IsSeparator(c) <==> c in "-_"
  {
  }

  // ---------------------------------------------------------------- double extensions

  /** The last two dots of the name. */
  ghost predicate LastTwoDots(s: string, i: nat, j: nat) {
    i < j < |s| && s[i] == '.' && s[j] == '.' && forall k :: i < k < |s| && k != j ==> s[k] != '.'
  }

  lemma SplitConcat(a: string, b: string)
    ensures Separated.Split(a + ['.'] + b, '.') == Separated.Split(a, '.') + Separated.Split(b, '.')
  {
    var x, y := Separated.Split(a, '.'), Separated.Split(b, '.');
    Separated.UnsplitSplit(a, '.');
    Separated.UnsplitSplit(b, '.');
    UnsplitTwo(x, y);
    assert forall p :: p in x + y ==> p in x || p in y;
    Separated.SplitUnsplit(x + y, '.');
  }

  lemma {:induction false} UnsplitTwo(x: seq<string>, y: seq<string>)
    requires x != [] && y != []
    ensures Separated.Unsplit(x + y, '.') == Separated.Unsplit(x, '.') + ['.'] + Separated.Unsplit(y, '.')
  {
    var all := x + y;
    if |x| == 1 {
      assert all[0] == x[0] && all[1..] == y;
    } else {
      UnsplitTwo(x[1..], y);
      assert all[0] == x[0] && all[1..] == x[1..] + y;
      var front, middle := x[0] + ['.'], Separated.Unsplit(x[1..], '.');
      Assoc(front, middle + ['.'], Separated.Unsplit(y, '.'));
      Assoc(front, middle, ['.']);
    }
  }

  lemma TwoPieces(a: string, b: string)
    requires '.' !in a && '.' !in b
    ensures Separated.Split(a + ['.'] + b, '.') == [a, b]
  {
    Separated.SplitFirst(a, b, '.');
    Separated.OnePiece(b, '.');
  }

  lemma LastTwoPieces(s: string, i: nat, j: nat)
    requires LastTwoDots(s, i, j)
    ensures Separated.Split(s, '.') == Separated.Split(s[..i], '.') + [s[i + 1..j], s[j + 1..]]
  {
    var middle, last := s[i + 1..j], s[j + 1..];
    assert s == s[..i] + ['.'] + (middle + ['.'] + last);
    TwoPieces(middle, last);
    SplitConcat(s[..i], middle + ['.'] + last);
  }

  lemma FewerDots(s: string)
    requires forall i: nat, j: nat :: !LastTwoDots(s, i, j)
    ensures |Separated.Split(s, '.')| <= 2
  {
    var j := Separated.IndexOf(s, '.');
    if j < |s| {
      var rest := s[j + 1..];
      var k := Separated.IndexOf(rest, '.');
      if k < |rest| {
        DotsFound(s, j, j + 1 + k);
      } else {
        Separated.OnePiece(rest, '.');
      }
    }
  }

  lemma {:induction false} DotsFound(s: string, i: nat, j: nat)
    requires i < j < |s| && s[i] == '.' && s[j] == '.' && forall a: nat, b: nat :: !LastTwoDots(s, a, b)
    ensures false
    decreases |s| - i, |s| - j
  {
    if k :| i < k < |s| && k != j && s[k] == '.' {
      if k > j {
        DotsFound(s, j, k);
      } else {
        DotsFound(s, k, j);
      }
    } else {
      assert LastTwoDots(s, i, j);
    }
  }

  /** A double extension is invalid exactly if the text between the last two dots of the name is one of the
      common extensions, in any letter case, and the name is not that of a diagram. */
  lemma DoubleExtensionIff(filename: string)
    ensures InvalidDoubleExtension(filename) <==>
            && !IsDiagram(filename)
            && exists i: nat, j: nat :: LastTwoDots(filename, i, j) && Lower(filename[i..j]) in COMMON_EXTENSIONS
  {
    DiagramIff(filename);
    var parts := Separated.Split(filename, '.');
    if i: nat, j: nat :| LastTwoDots(filename, i, j) {
      LastTwoPieces(filename, i, j);
      assert "." + filename[i + 1..j] == filename[i..j];
      assert parts[|parts| - 2] == filename[i + 1..j];
      forall a: nat, b: nat | LastTwoDots(filename, a, b) ensures a == i && b == j {
      }
    } else {
      FewerDots(filename);
    }
  }
}
