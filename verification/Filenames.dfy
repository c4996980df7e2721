/** The filename conventions: which names have an issue, and the name suggested instead. */
module Filenames {
  import opened Common
  import opened Paths
  import Separated

  // ---------------------------------------------------------------- characters and extensions

  predicate IsUpper(c: char) {
    'A' <= c <= 'Z'
  }

  predicate NameChar(c: char) {
    'a' <= c <= 'z' || '0' <= c <= '9' || c == '-' || c == '_'
  }

  predicate ValidChar(c: char) {
    NameChar(c) || c == '.'
  }

  predicate IsSeparator(c: char) {
    c == '-' || c == '_'
  }

  /** The offset of the last dot behind the last slash. */
  function LastDot(s: string): (r: Option<nat>)
    ensures r.Some? ==> r.value < |s| && s[r.value] == '.'
    ensures r.Some? ==> forall k :: r.value < k < |s| ==> s[k] != '.' && s[k] != '/'
    ensures r.None? && '/' !in s ==> '.' !in s
  {
    if s == "" || Last(s) == '/' then None
    else if Last(s) == '.' then Some(|s| - 1)
    else LastDot(s[..|s| - 1])
  }

  function Ext(s: string): string {
    var dot := LastDot(s);
    if dot.None? then "" else s[dot.value..]
  }

  function WithoutExt(s: string): string {
    s[..|s| - |Ext(s)|]
  }

  predicate Whitelisted(filename: string) {
    HasSuffix(Lower(filename), ".drawio.png") || HasSuffix(Lower(filename), ".drawio.svg")
  }

  const COMMON_EXTENSIONS: set<string> :=
    {".md", ".markdown", ".png", ".jpg", ".jpeg", ".gif", ".svg", ".tmp", ".bak", ".backup", ".old", ".yaml", ".yml",
     ".json", ".toml"}

  predicate InvalidDoubleExtension(filename: string) {
    var parts := Separated.Split(filename, '.');
    !Whitelisted(filename) && |parts| >= 3 && Lower("." + parts[|parts| - 2]) in COMMON_EXTENSIONS
  }

  // ---------------------------------------------------------------- issues

  method HasUppercase(filename: string) returns (r: bool)
    ensures r <==> exists c :: c in filename && IsUpper(c)
  {
    for i := 0 to |filename|
      invariant forall k :: 0 <= k < i ==> !IsUpper(filename[k])
    {
      if IsUpper(filename[i]) {
        return true;
      }
    }
    return false;
  }

  /** The distinct characters outside the allowed ones, in order of appearance. */
  method FindSpecialChars(filename: string) returns (chars: seq<char>)
    ensures forall c :: c in chars <==> c in filename && !ValidChar(c)
    ensures forall i, j :: 0 <= i < j < |chars| ==> chars[i] != chars[j]
  {
    chars := [];
    for i := 0 to |filename|
      invariant forall c :: c in chars <==> c in filename[..i] && !ValidChar(c)
      invariant forall a, b :: 0 <= a < b < |chars| ==> chars[a] != chars[b]
    {
      assert filename[..i + 1] == filename[..i] + [filename[i]];
      if !ValidChar(filename[i]) && filename[i] !in chars {
        chars := chars + [filename[i]];
      }
    }
    assert filename[..|filename|] == filename;
  }

  predicate SpecialChars(filename: string) {
    filename == "" || exists c :: c in filename && !ValidChar(c)
  }

  predicate BadEnds(name: string) {
    name != "" && (IsSeparator(name[0]) || IsSeparator(Last(name)))
  }

  predicate Exempt(filename: string) {
    filename == "_index.md" || filename == "_index.markdown" || Whitelisted(filename)
  }

  predicate HasFilenameIssue(filename: string) {
    && !Exempt(filename)
    && (|| InvalidDoubleExtension(filename)
        || (exists c :: c in filename && (IsUpper(c) || c == ' '))
        || SpecialChars(filename)
        || BadEnds(WithoutExt(filename)))
  }

  datatype Issue =
    | WhitelistedInfo
    | DoubleExtension
    | Uppercase
    | Spaces
    | Special(chars: seq<char>)
    | LeadingOrTrailing

  /** Each issue about characters is reported exactly if it is there, but special characters only if no
      upper-case letter is reported. */
  ghost predicate ReportsCharacters(filename: string, issues: seq<Issue>) {
    var upper := exists c :: c in filename && IsUpper(c);
    && (Uppercase in issues <==> upper)
    && (Spaces in issues <==> ' ' in filename)
    && ((exists i :: i in issues && i.Special?) <==> SpecialChars(filename) && !upper)
  }

  /** What is reported for a name without a double extension. */
  ghost predicate ReportsEach(filename: string, issues: seq<Issue>) {
    && ReportsCharacters(filename, issues)
    && (LeadingOrTrailing in issues <==> BadEnds(WithoutExt(filename)))
    && DoubleExtension !in issues && WhitelistedInfo !in issues
  }

  /** The rule reports an error exactly for the names with an issue, and it reports each issue there is; the
      characters that it lists are exactly those that are not allowed. */
  method Check(filename: string) returns (issues: seq<Issue>)
    ensures HasFilenameIssue(filename) <==> exists i :: i in issues && !i.WhitelistedInfo?
    ensures Whitelisted(filename) ==> issues == [WhitelistedInfo]
    ensures filename == "_index.md" || filename == "_index.markdown" ==> issues == []
    ensures !Exempt(filename) && InvalidDoubleExtension(filename) ==> issues == [DoubleExtension]
    ensures !Exempt(filename) && !InvalidDoubleExtension(filename) ==> ReportsEach(filename, issues)
    ensures forall i :: i in issues && i.Special? ==> forall c :: c in i.chars <==> c in filename && !ValidChar(c)
  {
    issues := [];
    if filename == "_index.md" || filename == "_index.markdown" {
      assert !Whitelisted("_index.md") by { assert Lower("_index.md")[0] == '_'; NotWhitelisted("_index.md"); }
      assert !Whitelisted("_index.markdown") by { NotWhitelisted("_index.markdown"); }
      return;
    }
    if Whitelisted(filename) {
      return [WhitelistedInfo];
    }
    if InvalidDoubleExtension(filename) {
      assert DoubleExtension in [DoubleExtension];
      return [DoubleExtension];
    }
    issues := CheckCharacters(filename);
    if BadEnds(WithoutExt(filename)) {
      issues := issues + [LeadingOrTrailing];
    }
    assert issues != [] ==> issues[0] in issues;
  }

  method CheckCharacters(filename: string) returns (issues: seq<Issue>)
    ensures ReportsCharacters(filename, issues)
    ensures forall i :: i in issues ==> i.Uppercase? || i.Spaces? || i.Special?
    ensures forall i :: i in issues && i.Special? ==> forall c :: c in i.chars <==> c in filename && !ValidChar(c)
  {
    issues := [];
    var upper := HasUppercase(filename);
    if upper {
      issues := issues + [Uppercase];
    }
    if ' ' in filename {
      issues := issues + [Spaces];
    }
    if !upper && SpecialChars(filename) {
      var chars := FindSpecialChars(filename);
      assert Special(chars) in issues + [Special(chars)];
      issues := issues + [Special(chars)];
    }
  }

  /** A whitelisted name has a 'g' at its end. */
  lemma NotWhitelisted(filename: string)
    requires filename != "" && LowerChar(Last(filename)) != 'g'
    ensures !Whitelisted(filename)
  {
    var l := Lower(filename);
    assert Last(l) == LowerChar(Last(filename));
    assert |l| >= 11 ==> l[|l| - 11..][10] == Last(l);
  }

  // ---------------------------------------------------------------- the suggestion

  function Hyphenated(s: string): string {
    seq(|s|, i requires 0 <= i < |s| => if s[i] == ' ' then '-' else s[i])
  }

  function OnlyNameChars(s: string): string {
    if s == "" then "" else (if NameChar(s[0]) then [s[0]] else "") + OnlyNameChars(s[1..])
  }

  function SingleHyphens(s: string): string {
    if |s| <= 1 then s
    else if s[0] == '-' && s[1] == '-' then SingleHyphens(s[1..])
    else [s[0]] + SingleHyphens(s[1..])
  }

  function TrimSeparators(s: string): string {
    Trim(s, IsSeparator)
  }

  function CleanName(name: string): string {
    TrimSeparators(SingleHyphens(OnlyNameChars(Hyphenated(Lower(name)))))
  }

  /** The extension that the suggestion keeps, before lowering. */
  function KeptExt(filename: string): string {
    var parts := Separated.Split(filename, '.');
    if |parts| >= 3 then "." + Last(parts) else Ext(filename)
  }

  function KeptName(filename: string): string {
    var parts := Separated.Split(filename, '.');
    if |parts| >= 3 then Separated.Unsplit(parts[..|parts| - 1], '.') else WithoutExt(filename)
  }

  function SuggestFilename(filename: string): string {
    if Whitelisted(filename) then filename else CleanName(KeptName(filename)) + Lower(KeptExt(filename))
  }

  // ---------------------------------------------------------------- clean names stay as they are

  /** Name characters only, no two hyphens in a row, no separator at an end. */
  predicate Tidy(s: string) {
    && (forall c :: c in s ==> NameChar(c))
    && (forall i :: 0 <= i < |s| - 1 ==> !(s[i] == '-' && s[i + 1] == '-'))
    && !BadEnds(s)
  }

  lemma {:induction false} OnlyNameCharsFilters(s: string)
    ensures forall c :: c in OnlyNameChars(s) ==> NameChar(c)
    ensures (forall c :: c in s ==> NameChar(c)) ==> OnlyNameChars(s) == s
  {
    if s != "" {
      OnlyNameCharsFilters(s[1..]);
    }
  }

  predicate NoDoubleHyphen(s: string) {
    forall i :: 0 <= i < |s| - 1 ==> !(s[i] == '-' && s[i + 1] == '-')
  }

  lemma {:induction false} SingleHyphensCollapses(s: string)
    ensures NoDoubleHyphen(SingleHyphens(s))
    ensures forall c :: c in SingleHyphens(s) ==> c in s
    ensures s != "" ==> SingleHyphens(s) != "" && SingleHyphens(s)[0] == s[0]
    ensures NoDoubleHyphen(s) ==> SingleHyphens(s) == s
  {
    if |s| > 1 {
      SingleHyphensCollapses(s[1..]);
      assert NoDoubleHyphen(s) ==> NoDoubleHyphen(s[1..]);
    }
  }

  lemma {:induction false} TrimSeparatorsTrims(s: string)
    requires NoDoubleHyphen(s)
    ensures !BadEnds(TrimSeparators(s)) && NoDoubleHyphen(TrimSeparators(s))
    ensures forall c :: c in TrimSeparators(s) ==> c in s
    ensures !BadEnds(s) ==> TrimSeparators(s) == s
    decreases |s|
  {
    if s != "" {
      if IsSeparator(s[0]) {
        TrimSeparatorsTrims(s[1..]);
      } else if IsSeparator(Last(s)) {
        TrimSeparatorsTrims(s[..|s| - 1]);
      }
    }
  }

  lemma CleanNameIsTidy(name: string)
    ensures Tidy(CleanName(name))
  {
    var only := OnlyNameChars(Hyphenated(Lower(name)));
    OnlyNameCharsFilters(Hyphenated(Lower(name)));
    SingleHyphensCollapses(only);
    TrimSeparatorsTrims(SingleHyphens(only));
  }

  lemma TidyStays(s: string)
    requires Tidy(s)
    ensures CleanName(s) == s
  {
    assert forall i :: 0 <= i < |s| ==> s[i] in s;
    assert Lower(s) == s && Hyphenated(s) == s;
    OnlyNameCharsFilters(s);
    SingleHyphensCollapses(s);
    TrimSeparatorsTrims(s);
  }

  // ---------------------------------------------------------------- the shape of a suggestion

  /** Empty, or one dot and then neither dots nor slashes. */
  predicate PlainExt(ext: string) {
    ext == "" || (ext[0] == '.' && '.' !in ext[1..] && '/' !in ext[1..])
  }

  lemma KeptExtIsPlain(filename: string)
    requires '/' !in filename
    ensures PlainExt(KeptExt(filename)) && PlainExt(Lower(KeptExt(filename)))
  {
    var parts := Separated.Split(filename, '.');
    var ext := KeptExt(filename);
    if |parts| >= 3 {
      Separated.UnsplitSplit(filename, '.');
      Separated.PiecesFree(filename, '.', '/');
      assert Last(parts) in parts && ext[1..] == Last(parts);
    } else if ext != "" {
      var dot := LastDot(filename).value;
      assert forall k :: 0 <= k < |ext[1..]| ==> ext[1..][k] == filename[dot + 1 + k];
    }
    assert forall k :: 0 <= k < |ext| ==> Lower(ext)[k] == LowerChar(ext[k]);
    if ext != "" {
      assert Lower(ext)[1..] == Lower(ext[1..]);
      LowerKeeps(ext[1..]);
    }
  }

  lemma LowerKeeps(s: string)
    ensures '.' in Lower(s) <==> '.' in s
    ensures '/' in Lower(s) <==> '/' in s
    ensures Lower(Lower(s)) == Lower(s)
    ensures forall c :: c in Lower(s) ==> !IsUpper(c)
  {
    assert forall i :: 0 <= i < |s| ==> (Lower(s)[i] == '.' <==> s[i] == '.');
    assert forall i :: 0 <= i < |s| ==> (Lower(s)[i] == '/' <==> s[i] == '/');
    assert forall i :: 0 <= i < |s| ==> Lower(Lower(s))[i] == Lower(s)[i];
  }

  lemma JoinedParts(name: string, ext: string)
    requires '.' !in name && PlainExt(ext)
    ensures Separated.Split(name + ext, '.') == if ext == "" then [name] else [name, ext[1..]]
  {
    if ext == "" {
      assert name + ext == name;
      Separated.OnePiece(name, '.');
    } else {
      var x := ext[1..];
      assert ext == ['.'] + x && name + ext == name + ['.'] + x;
      Separated.SplitFirst(name, x, '.');
      Separated.OnePiece(x, '.');
    }
  }

  lemma JoinedExt(name: string, ext: string)
    requires '.' !in name && '/' !in name && PlainExt(ext)
    ensures Ext(name + ext) == ext && WithoutExt(name + ext) == name && !Whitelisted(name + ext)
  {
    var r := name + ext;
    if ext == "" {
      assert r == name;
      FewDots(r, |r|);
    } else {
      assert forall k :: |name| < k < |r| ==> r[k] == ext[1..][k - |name| - 1];
      LastDotAt(r, |name|);
      assert r[|name|..] == ext && r[..|name|] == name;
      FewDots(r, |name|);
    }
  }

  /** A tidy name with a plain extension is cut where it was joined. */
  lemma JoinedName(name: string, ext: string)
    requires Tidy(name) && PlainExt(ext)
    ensures var r := name + ext;
            && Ext(r) == ext && WithoutExt(r) == name
            && KeptExt(r) == ext && KeptName(r) == name
            && |Separated.Split(r, '.')| <= 2 && !Whitelisted(r)
  {
    JoinedParts(name, ext);
    JoinedExt(name, ext);
  }

  lemma LastDotAt(s: string, at: nat)
    requires at < |s| && s[at] == '.' && forall k :: at < k < |s| ==> s[k] != '.' && s[k] != '/'
    ensures LastDot(s) == Some(at)
  {
    if at < |s| - 1 {
      LastDotAt(s[..|s| - 1], at);
    }
  }

  /** A whitelisted name has two dots. */
  lemma FewDots(s: string, dot: nat)
    requires forall k :: 0 <= k < |s| && k != dot ==> s[k] != '.'
    ensures !Whitelisted(s)
  {
    var l := Lower(s);
    assert forall k :: 0 <= k < |l| ==> (l[k] == '.' <==> s[k] == '.');
    assert |l| >= 11 ==> l[|l| - 11..][0] == l[|l| - 11] && l[|l| - 11..][7] == l[|l| - 4];
  }

  // ---------------------------------------------------------------- laws

  /** Suggesting a name for a suggested name changes nothing more. */
  lemma SuggestIdempotent(filename: string)
    requires '/' !in filename
    ensures SuggestFilename(SuggestFilename(filename)) == SuggestFilename(filename)
  {
    if !Whitelisted(filename) {
      var name, ext := CleanName(KeptName(filename)), Lower(KeptExt(filename));
      CleanNameIsTidy(KeptName(filename));
      KeptExtIsPlain(filename);
      JoinedName(name, ext);
      TidyStays(name);
      LowerKeeps(KeptExt(filename));
    }
  }

  predicate LetterOrDigit(c: char) {
    NameChar(c) && !IsSeparator(c)
  }

  predicate HasLetterOrDigit(s: string) {
    exists c :: c in s && LetterOrDigit(c)
  }

  lemma {:induction false} OnlyNameCharsKeeps(s: string)
    ensures HasLetterOrDigit(OnlyNameChars(s)) <==> HasLetterOrDigit(s)
  {
    if s != "" {
      OnlyNameCharsKeeps(s[1..]);
      assert s == [s[0]] + s[1..];
      var head := if NameChar(s[0]) then [s[0]] else "";
      assert forall c :: c in head + OnlyNameChars(s[1..]) <==> c in head || c in OnlyNameChars(s[1..]);
    }
  }

  lemma HyphenatedKeeps(s: string)
    ensures HasLetterOrDigit(Hyphenated(s)) <==> HasLetterOrDigit(s)
  {
    if c :| c in s && LetterOrDigit(c) {
      var i :| 0 <= i < |s| && s[i] == c;
      assert Hyphenated(s)[i] == c;
    }
    if c :| c in Hyphenated(s) && LetterOrDigit(c) {
      var i :| 0 <= i < |s| && Hyphenated(s)[i] == c;
      assert s[i] == c;
    }
  }

  lemma {:induction false} SingleHyphensKeeps(s: string)
    ensures HasLetterOrDigit(SingleHyphens(s)) <==> HasLetterOrDigit(s)
  {
    if |s| > 1 {
      SingleHyphensKeeps(s[1..]);
      assert s == [s[0]] + s[1..];
    }
  }

  /** Trimming separators leaves nothing exactly if there is nothing else. */
  lemma {:induction false} TrimmedAway(s: string)
    requires forall c :: c in s ==> NameChar(c)
    ensures TrimSeparators(s) == "" <==> !HasLetterOrDigit(s)
    decreases |s|
  {
    if s != "" {
      if IsSeparator(s[0]) {
        assert s == [s[0]] + s[1..];
        TrimmedAway(s[1..]);
      } else if IsSeparator(Last(s)) {
        assert s == s[..|s| - 1] + [Last(s)];
        TrimmedAway(s[..|s| - 1]);
      } else {
        assert s[0] in s && LetterOrDigit(s[0]);
      }
    }
  }

  /** Nothing is left of a name exactly if it has no letters and no digits. */
  lemma CleanedAway(name: string)
    ensures CleanName(name) == "" <==> !HasLetterOrDigit(Lower(name))
  {
    var hyphenated := Hyphenated(Lower(name));
    HyphenatedKeeps(Lower(name));
    OnlyNameCharsKeeps(hyphenated);
    OnlyNameCharsFilters(hyphenated);
    SingleHyphensKeeps(OnlyNameChars(hyphenated));
    SingleHyphensCollapses(OnlyNameChars(hyphenated));
    TrimmedAway(SingleHyphens(OnlyNameChars(hyphenated)));
  }

  /** A suggested name has no issue exactly if the original is whitelisted, or its extension consists of
      allowed characters and it has an extension, or a letter or digit in front of it. */
  lemma SuggestionHasNoIssueIff(filename: string)
    requires '/' !in filename
    ensures !HasFilenameIssue(SuggestFilename(filename)) <==>
              || Whitelisted(filename)
              || (&& (KeptExt(filename) != "" || HasLetterOrDigit(Lower(KeptName(filename))))
                  && forall c :: c in Lower(KeptExt(filename)) ==> ValidChar(c))
  {
    CleanedAway(KeptName(filename));
    if !Whitelisted(filename) {
      CleanNameIsTidy(KeptName(filename));
      KeptExtIsPlain(filename);
      LowerKeeps(KeptExt(filename));
      IssueOfTidy(CleanName(KeptName(filename)), Lower(KeptExt(filename)));
    }
  }

  lemma IssueOfTidy(name: string, ext: string)
    requires Tidy(name) && PlainExt(ext) && forall c :: c in ext ==> !IsUpper(c)
    ensures HasFilenameIssue(name + ext) <==> name + ext == "" || exists c :: c in ext && !ValidChar(c)
  {
    TidyPieces(name, ext);
    TidyChars(name, ext);
    OnlySpecialsLeft(name + ext);
    SpecialsOfTidy(name, ext);
  }

  /** A name in lower case, with one extension at most and clean ends, can only have special characters. */
  lemma OnlySpecialsLeft(r: string)
    requires !Exempt(r) && !InvalidDoubleExtension(r) && !BadEnds(WithoutExt(r)) && forall c :: c in r ==> !IsUpper(c)
    ensures HasFilenameIssue(r) <==> SpecialChars(r)
  {
    assert !ValidChar(' ');
  }

  lemma SpecialsOfTidy(name: string, ext: string)
    requires Tidy(name)
    ensures SpecialChars(name + ext) <==> name + ext == "" || exists c :: c in ext && !ValidChar(c)
  {
    if c :| c in name + ext && !ValidChar(c) {
      assert c in name || c in ext;
    }
    if c :| c in ext && !ValidChar(c) {
      assert c in name + ext;
    }
  }

  lemma TidyPieces(name: string, ext: string)
    requires Tidy(name) && PlainExt(ext)
    ensures !Exempt(name + ext) && !InvalidDoubleExtension(name + ext) && !BadEnds(WithoutExt(name + ext))
  {
    JoinedName(name, ext);
    NotIndex(name, ext);
  }

  lemma TidyChars(name: string, ext: string)
    requires Tidy(name) && forall c :: c in ext ==> !IsUpper(c)
    ensures forall c :: c in name + ext ==> !IsUpper(c)
  {
  }

  lemma NotIndex(name: string, ext: string)
    requires Tidy(name) && PlainExt(ext)
    ensures name + ext != "_index.md" && name + ext != "_index.markdown"
  {
    assert name != "" ==> (name + ext)[0] == name[0];
    assert name == "" ==> name + ext == ext;
  }

  // ---------------------------------------------------------------- accepted files

  const ACCEPTED_EXTENSIONS: set<string> := {".md", ".markdown", ".png", ".jpg", ".jpeg", ".gif", ".svg"}

  lemma {:induction false} LastDotBehind(head: string, tail: string)
    requires '.' !in tail && '/' !in tail
    ensures LastDot(head + ['.'] + tail) == Some(|head|)
  {
    var s := head + ['.'] + tail;
    assert forall k :: |head| < k < |s| ==> s[k] == tail[k - |head| - 1];
    LastDotAt(s, |head|);
  }

  lemma LastPart(filename: string, parts: seq<string>) returns (head: string)
    requires '/' !in filename && parts == Separated.Split(filename, '.') && |parts| >= 2
    ensures filename == head + ['.'] + Last(parts) && '.' !in Last(parts) && '/' !in Last(parts)
  {
    var front, last := parts[..|parts| - 1], Last(parts);
    Separated.UnsplitSplit(filename, '.');
    Separated.PiecesFree(filename, '.', '/');
    assert last in parts && parts == front + [last];
    Separated.UnsplitAppend(front, [last], '.');
    ClosedEndsInDot(front);
    var closed := Separated.Closed(front, '.');
    head := closed[..|closed| - 1];
    assert closed == head + ['.'];
  }

  /** The two ways in which the extension is found agree. */
  lemma ExtIsLastPart(filename: string)
    requires '/' !in filename
    ensures KeptExt(filename) == Ext(filename)
  {
    var parts := Separated.Split(filename, '.');
    if |parts| >= 3 {
      var head := LastPart(filename, parts);
      LastDotBehind(head, Last(parts));
      assert (head + ['.'] + Last(parts))[|head|..] == ['.'] + Last(parts);
    }
  }

  lemma {:induction false} ClosedEndsInDot(pieces: seq<string>)
    requires pieces != []
    ensures Separated.Closed(pieces, '.') != "" && Last(Separated.Closed(pieces, '.')) == '.'
  {
    if |pieces| > 1 {
      ClosedEndsInDot(pieces[1..]);
    } else {
      assert pieces[1..] == [];
      assert Separated.Closed(pieces, '.') == pieces[0] + ['.'];
    }
  }

  lemma AcceptedIsPlain(ext: string)
    requires ext in ACCEPTED_EXTENSIONS
    ensures Lower(ext) == ext && forall c :: c in ext ==> ValidChar(c)
    ensures ext != ""
  {
    assert forall i :: 0 <= i < |ext| ==> ValidChar(ext[i]);
    assert forall i :: 0 <= i < |ext| ==> Lower(ext)[i] == ext[i];
  }

  /** A reported document or image can always be renamed: its suggestion has no issue, so it is another
      name, and it keeps the extension. */
  lemma AcceptedFilesCanBeRenamed(filename: string)
    requires '/' !in filename && Ext(filename) in ACCEPTED_EXTENSIONS
    ensures !HasFilenameIssue(SuggestFilename(filename))
    ensures HasFilenameIssue(filename) ==> SuggestFilename(filename) != filename
    ensures Ext(SuggestFilename(filename)) == Ext(filename)
  {
    ExtIsLastPart(filename);
    AcceptedIsPlain(Ext(filename));
    if !Whitelisted(filename) {
      CleanNameIsTidy(KeptName(filename));
      KeptExtIsPlain(filename);
      JoinedName(CleanName(KeptName(filename)), Lower(KeptExt(filename)));
      assert SuggestFilename(filename) != "";
    }
    SuggestionHasNoIssueIff(filename);
  }

  lemma OneDot(filename: string, head: string, tail: string)
    requires filename == head + ['.'] + tail && '.' !in head && '.' !in tail && '/' !in tail
    ensures KeptExt(filename) == ['.'] + tail
  {
    Separated.SplitFirst(head, tail, '.');
    LastDotBehind(head, tail);
    Separated.OnePiece(tail, '.');
    assert filename[|head|..] == ['.'] + tail;
  }

  lemma LowerKeepsHash(s: string)
    requires '#' in s
    ensures '#' in Lower(s) && !ValidChar('#')
  {
    var i :| 0 <= i < |s| && s[i] == '#';
    assert Lower(s)[i] == '#';
  }

  /** A bad extension is kept: the suggestion for this name still has an issue. */
  lemma BadExtensionStays(filename: string)
    requires filename == "notes.c#"
    ensures HasFilenameIssue(SuggestFilename(filename))
  {
    var head, tail := "notes", "c#";
    assert filename == head + ['.'] + tail;
    assert '/' !in filename && Last(filename) == '#' && tail[1] == '#';
    NotWhitelisted(filename);
    OneDot(filename, head, tail);
    LowerKeepsHash(['.'] + tail);
    SuggestionHasNoIssueIff(filename);
  }

  /** Nothing is left of this name: its suggestion is empty, which has an issue. */
  lemma NothingLeft(filename: string)
    requires filename == "___"
    ensures SuggestFilename(filename) == "" && HasFilenameIssue(SuggestFilename(filename))
  {
    NotWhitelisted(filename);
    Separated.OnePiece(filename, '.');
    assert LastDot(filename).None?;
    assert filename[..|filename| - 0] == filename;
    assert forall i :: 0 <= i < 3 ==> Lower(filename)[i] == '_';
    CleanedAway(filename);
    SuggestionHasNoIssueIff(filename);
  }
}
