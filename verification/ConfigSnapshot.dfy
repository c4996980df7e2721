/** The fingerprint of a configuration: the bytes that are hashed, and what they determine. */
module ConfigSnapshot {
  import opened Common
  import opened ConfigLists
  import Separated

  datatype Versioning = Versioning(
    strategy: string, maxVersions: string, branchPatterns: seq<string>, tagPatterns: seq<string>)

  datatype Monitoring = Monitoring(level: string, format: string)

  /** The build-affecting part of a configuration; numbers stand as their decimal text. */
  datatype Config = Config(
    baseURL: string, title: string, renderMode: string, namespaceForges: string, cloneStrategy: string,
    retryBackoff: string, versioning: Option<Versioning>, outputDirectory: string, publicOnly: Option<bool>,
    filtering: Option<Filtering>, monitoring: Option<Monitoring>)

  // ---------------------------------------------------------------- the library sort

  function InsertSorted(x: string, s: seq<string>): (r: seq<string>)
    ensures |r| == |s| + 1
  {
    if s == [] || !Less(s[0], x) then [x] + s else [s[0]] + InsertSorted(x, s[1..])
  }

  /** The library sort of strings: its result is the only sorted permutation. */
  function Sorted(s: seq<string>): (r: seq<string>)
    ensures |r| == |s|
  {
    if s == [] then [] else InsertSorted(s[0], Sorted(s[1..]))
  }

  lemma {:induction false} InsertSortedSorts(x: string, s: seq<string>)
    requires WeaklySorted(s)
    ensures multiset(InsertSorted(x, s)) == multiset(s) + multiset{x}
    ensures WeaklySorted(InsertSorted(x, s))
  {
    if s != [] {
      assert s == [s[0]] + s[1..];
      if Less(s[0], x) {
        InsertSortedSorts(x, s[1..]);
        LessIsOrder(s[0], x);
        PrependSmallest(s[0], s[1..], x, InsertSorted(x, s[1..]));
      } else {
        NoneIsLess(x, s);
      }
    }
  }

  lemma PrependSmallest(head: string, tail: seq<string>, x: string, rest: seq<string>)
    requires WeaklySorted([head] + tail) && !Less(x, head)
    requires WeaklySorted(rest) && multiset(rest) == multiset(tail) + multiset{x}
    ensures WeaklySorted([head] + rest)
  {
    forall j | 0 <= j < |rest| ensures !Less(rest[j], head) {
      assert rest[j] in multiset(rest);
      if rest[j] != x {
        var i := PositionOf(tail, rest[j]);
        assert ([head] + tail)[0] == head && ([head] + tail)[i + 1] == rest[j];
      }
    }
  }

  lemma NoneIsLess(x: string, s: seq<string>)
    requires WeaklySorted(s) && s != [] && !Less(s[0], x)
    ensures forall j :: 0 <= j < |s| ==> !Less(s[j], x)
  {
    forall j | 0 <= j < |s| ensures !Less(s[j], x) {
      if j > 0 && Less(s[j], x) {
        LessIsOrder(x, s[0]);
        if s[0] != x {
          LessTransitive(s[j], x, s[0]);
        }
      }
    }
  }

  lemma {:induction false} SortedSorts(s: seq<string>)
    ensures multiset(Sorted(s)) == multiset(s) && WeaklySorted(Sorted(s))
  {
    if s != [] {
      SortedSorts(s[1..]);
      InsertSortedSorts(s[0], Sorted(s[1..]));
      assert s == [s[0]] + s[1..];
    }
  }

  lemma WeakSameHead(a: seq<string>, b: seq<string>)
    requires multiset(a) == multiset(b) && WeaklySorted(a) && WeaklySorted(b) && a != [] && b != []
    ensures a[0] == b[0]
  {
    var i := PositionOf(b, a[0]);
    var j := PositionOf(a, b[0]);
    assert i == 0 || !Less(a[0], b[0]);
    assert j == 0 || !Less(b[0], a[0]);
    LessIsOrder(a[0], b[0]);
  }

  lemma {:induction false} WeaklySortedUnique(a: seq<string>, b: seq<string>)
    requires multiset(a) == multiset(b) && WeaklySorted(a) && WeaklySorted(b)
    ensures a == b
  {
    assert |a| == |multiset(a)| == |multiset(b)| == |b|;
    if a != [] {
      WeakSameHead(a, b);
      SameTails(a, b);
      WeaklySortedUnique(a[1..], b[1..]);
      assert a == [a[0]] + a[1..] && b == [b[0]] + b[1..];
    }
  }

  // ---------------------------------------------------------------- keys and values

  datatype Key =
    | BaseURL | Title | RenderMode | NamespaceForges | CloneStrategy | RetryBackoff
    | VersioningStrategy | MaxVersions | BranchPatterns | TagPatterns
    | OutputDirectory | PublicOnly
    | IncludePatterns | ExcludePatterns | RequiredPaths | IgnoreFiles
    | LoggingLevel | LoggingFormat

  function Name(k: Key): string {
    match k
    case BaseURL => "hugo.base_url"
    case Title => "hugo.title"
    case RenderMode => "build.render_mode"
    case NamespaceForges => "build.namespace_forges"
    case CloneStrategy => "build.clone_strategy"
    case RetryBackoff => "build.retry_backoff"
    case VersioningStrategy => "versioning.strategy"
    case MaxVersions => "versioning.max_versions"
    case BranchPatterns => "versioning.branch_patterns"
    case TagPatterns => "versioning.tag_patterns"
    case OutputDirectory => "output.directory"
    case PublicOnly => "daemon.content.public_only"
    case IncludePatterns => "filtering.include_patterns"
    case ExcludePatterns => "filtering.exclude_patterns"
    case RequiredPaths => "filtering.required_paths"
    case IgnoreFiles => "filtering.ignore_files"
    case LoggingLevel => "monitoring.logging.level"
    case LoggingFormat => "monitoring.logging.format"
  }

  /** The order in which the keys are written. */
  const ORDER: seq<Key> :=
    [BaseURL, Title, RenderMode, NamespaceForges, CloneStrategy, RetryBackoff,
     VersioningStrategy, MaxVersions, BranchPatterns, TagPatterns,
     OutputDirectory, PublicOnly,
     IncludePatterns, ExcludePatterns, RequiredPaths, IgnoreFiles,
     LoggingLevel, LoggingFormat]

  /** The sorted entries joined by commas; an empty list has no text. */
  function ListText(list: seq<string>): Option<string> {
    if list == [] then None else Some(Separated.Unsplit(Sorted(list), ','))
  }

  /** What is written for a key, if anything. */
  function Value(c: Config, k: Key): Option<string> {
    match k
    case BaseURL => Some(c.baseURL)
    case Title => Some(c.title)
    case RenderMode => Some(c.renderMode)
    case NamespaceForges => Some(c.namespaceForges)
    case CloneStrategy => Some(c.cloneStrategy)
    case RetryBackoff => Some(c.retryBackoff)
    case VersioningStrategy => if c.versioning.None? then None else Some(c.versioning.value.strategy)
    case MaxVersions => if c.versioning.None? then None else Some(c.versioning.value.maxVersions)
    case BranchPatterns => if c.versioning.None? then None else ListText(c.versioning.value.branchPatterns)
    case TagPatterns => if c.versioning.None? then None else ListText(c.versioning.value.tagPatterns)
    case OutputDirectory => Some(c.outputDirectory)
    case PublicOnly => if c.publicOnly.None? then None else Some(if c.publicOnly.value then "true" else "false")
    case IncludePatterns => if c.filtering.None? then None else ListText(c.filtering.value.includePatterns)
    case ExcludePatterns => if c.filtering.None? then None else ListText(c.filtering.value.excludePatterns)
    case RequiredPaths => if c.filtering.None? then None else ListText(c.filtering.value.requiredPaths)
    case IgnoreFiles => if c.filtering.None? then None else ListText(c.filtering.value.ignoreFiles)
    case LoggingLevel => if c.monitoring.None? then None else Some(c.monitoring.value.level)
    case LoggingFormat => if c.monitoring.None? then None else Some(c.monitoring.value.format)
  }

  const NUL: char := 0 as char

  function Entry(k: Key, value: string): string {
    Name(k) + "=" + value
  }

  /** Names for the keys. The writing does not depend on what they are. */
  type Naming = Key -> string

  /** What a key contributes: its entry closed by a zero byte, or nothing. */
  function Chunk(c: Config, k: Key, name: Naming): string {
    if Value(c, k).None? then "" else name(k) + "=" + Value(c, k).value + [NUL]
  }

  function Bytes(c: Config, keys: seq<Key>, n: nat, name: Naming): string
    requires n <= |keys|
  {
    if n == 0 then "" else Bytes(c, keys, n - 1, name) + Chunk(c, keys[n - 1], name)
  }

  /** The bytes that are hashed. */
  function Preimage(c: Config): string {
    Bytes(c, ORDER, |ORDER|, Name)
  }

  const NO_FILTERING := Filtering([], [], [], [])

  function FilteringOf(c: Config): Filtering {
    if c.filtering.None? then NO_FILTERING else c.filtering.value
  }

  lemma FilteringValues(c: Config)
    ensures Value(c, IncludePatterns) == ListText(FilteringOf(c).includePatterns)
    ensures Value(c, ExcludePatterns) == ListText(FilteringOf(c).excludePatterns)
    ensures Value(c, RequiredPaths) == ListText(FilteringOf(c).requiredPaths)
    ensures Value(c, IgnoreFiles) == ListText(FilteringOf(c).ignoreFiles)
  {
  }

  // ---------------------------------------------------------------- the writing of the bytes

  /** What is fed to the hash. */
  class Hasher {
    const name: Naming
    var bytes: string

    constructor (name: Naming)
      ensures bytes == "" && this.name == name
    {
      this.name, bytes := name, "";
    }

    method Write(k: Key, value: string, ghost c: Config)
      requires Value(c, k) == Some(value)
      modifies this
      ensures bytes == old(bytes) + Chunk(c, k, name)
    {
      bytes := bytes + (name(k) + "=" + value);
      bytes := bytes + [NUL];
    }

    /** Lists are copied, sorted and joined; an empty one is not written. */
    method WriteList(k: Key, list: seq<string>, ghost c: Config)
      requires Value(c, k) == ListText(list)
      modifies this
      ensures bytes == old(bytes) + Chunk(c, k, name)
    {
      if |list| > 0 {
        Write(k, Separated.Unsplit(Sorted(list), ','), c);
      } else {
        assert bytes + "" == bytes;
      }
    }

    method WriteLists(k: Key, list: seq<string>, l: Key, other: seq<string>, ghost c: Config)
      requires Value(c, k) == ListText(list) && Value(c, l) == ListText(other)
      modifies this
      ensures bytes == old(bytes) + Chunk(c, k, name) + Chunk(c, l, name)
    {
      WriteList(k, list, c);
      WriteList(l, other, c);
    }

    /** The bytes for the first `n` keys have been written. */
    ghost predicate Reached(c: Config, n: nat)
      requires n <= |ORDER|
      reads this
    {
      bytes == Bytes(c, ORDER, n, name)
    }

    method WriteScalars(c: Config)
      requires Reached(c, 0)
      modifies this
      ensures Reached(c, 6)
    {
      FirstSix(c, name);
      Write(BaseURL, c.baseURL, c);
      Write(Title, c.title, c);
      Write(RenderMode, c.renderMode, c);
      Write(NamespaceForges, c.namespaceForges, c);
      Write(CloneStrategy, c.cloneStrategy, c);
      Write(RetryBackoff, c.retryBackoff, c);
    }

    method WriteVersioningFields(v: Option<Versioning>, ghost c: Config)
      requires v == c.versioning
      modifies this
      ensures bytes == old(bytes) + Chunk(c, VersioningStrategy, name) + Chunk(c, MaxVersions, name)
                       + Chunk(c, BranchPatterns, name) + Chunk(c, TagPatterns, name)
    {
      if v.Some? {
        Write(VersioningStrategy, v.value.strategy, c);
        Write(MaxVersions, v.value.maxVersions, c);
        WriteLists(BranchPatterns, v.value.branchPatterns, TagPatterns, v.value.tagPatterns, c);
      } else {
        assert bytes + "" == bytes;
      }
    }

    method WriteVersioning(v: Option<Versioning>, ghost c: Config)
      requires v == c.versioning && Reached(c, 6)
      modifies this
      ensures Reached(c, 10)
    {
      VersioningSection(c, name);
      WriteVersioningFields(v, c);
    }

    method WriteOutput(directory: string, publicOnly: Option<bool>, ghost c: Config)
      requires directory == c.outputDirectory && publicOnly == c.publicOnly && Reached(c, 10)
      modifies this
      ensures Reached(c, 12)
    {
      OutputSection(c, name);
      Write(OutputDirectory, directory, c);
      if publicOnly.Some? {
        Write(PublicOnly, if publicOnly.value then "true" else "false", c);
      } else {
        assert bytes + "" == bytes;
      }
    }

    method WriteFilteringLists(f: Option<Filtering>, ghost c: Config)
      requires f == c.filtering
      modifies this
      ensures bytes == old(bytes) + Chunk(c, IncludePatterns, name) + Chunk(c, ExcludePatterns, name)
                       + Chunk(c, RequiredPaths, name) + Chunk(c, IgnoreFiles, name)
    {
      if f.Some? {
        WriteLists(IncludePatterns, f.value.includePatterns, ExcludePatterns, f.value.excludePatterns, c);
        WriteLists(RequiredPaths, f.value.requiredPaths, IgnoreFiles, f.value.ignoreFiles, c);
      } else {
        assert bytes + "" == bytes;
      }
    }

    method WriteFiltering(f: Option<Filtering>, ghost c: Config)
      requires f == c.filtering && Reached(c, 12)
      modifies this
      ensures Reached(c, 16)
    {
      FilteringSection(c, name);
      WriteFilteringLists(f, c);
    }

    method WriteMonitoring(m: Option<Monitoring>, ghost c: Config)
      requires m == c.monitoring && Reached(c, 16)
      modifies this
      ensures Reached(c, 18)
    {
      LoggingSection(c, name);
      WriteMonitoringFields(m, c);
    }

    method WriteMonitoringFields(m: Option<Monitoring>, ghost c: Config)
      requires m == c.monitoring
      modifies this
      ensures bytes == old(bytes) + Chunk(c, LoggingLevel, name) + Chunk(c, LoggingFormat, name)
    {
      if m.Some? {
        Write(LoggingLevel, m.value.level, c);
        Write(LoggingFormat, m.value.format, c);
      } else {
        assert bytes + "" == bytes;
      }
    }
  }

  /** The writes of the source, one after the other: what is hashed is exactly the preimage. */
  method Snapshot(c: Config) returns (hashed: string)
    ensures hashed == Preimage(c)
  {
    var h := new Hasher(Name);
    h.WriteScalars(c);
    h.WriteVersioning(c.versioning, c);
    h.WriteOutput(c.outputDirectory, c.publicOnly, c);
    h.WriteFiltering(c.filtering, c);
    h.WriteMonitoring(c.monitoring, c);
    hashed := h.bytes;
  }

  lemma NextTwo(c: Config, name: Naming, n: nat)
    requires n + 2 <= |ORDER|
    ensures Bytes(c, ORDER, n + 2, name) ==
            Bytes(c, ORDER, n, name) + Chunk(c, ORDER[n], name) + Chunk(c, ORDER[n + 1], name)
  {
    assert Bytes(c, ORDER, n + 1, name) == Bytes(c, ORDER, n, name) + Chunk(c, ORDER[n], name);
  }

  lemma NextFour(c: Config, name: Naming, n: nat)
    requires n + 4 <= |ORDER|
    ensures Bytes(c, ORDER, n + 4, name) ==
            Bytes(c, ORDER, n, name) + Chunk(c, ORDER[n], name) + Chunk(c, ORDER[n + 1], name)
            + Chunk(c, ORDER[n + 2], name) + Chunk(c, ORDER[n + 3], name)
  {
    NextTwo(c, name, n);
    NextTwo(c, name, n + 2);
  }

  lemma VersioningSection(c: Config, name: Naming)
    ensures Bytes(c, ORDER, 10, name) ==
            Bytes(c, ORDER, 6, name) + Chunk(c, VersioningStrategy, name) + Chunk(c, MaxVersions, name)
            + Chunk(c, BranchPatterns, name) + Chunk(c, TagPatterns, name)
  {
    NextFour(c, name, 6);
  }

  lemma OutputSection(c: Config, name: Naming)
    ensures Bytes(c, ORDER, 12, name) ==
            Bytes(c, ORDER, 10, name) + Chunk(c, OutputDirectory, name) + Chunk(c, PublicOnly, name)
  {
    NextTwo(c, name, 10);
  }

  lemma FilteringSection(c: Config, name: Naming)
    ensures Bytes(c, ORDER, 16, name) ==
            Bytes(c, ORDER, 12, name) + Chunk(c, IncludePatterns, name) + Chunk(c, ExcludePatterns, name)
            + Chunk(c, RequiredPaths, name) + Chunk(c, IgnoreFiles, name)
  {
    NextFour(c, name, 12);
  }

  lemma LoggingSection(c: Config, name: Naming)
    ensures Bytes(c, ORDER, 18, name) ==
            Bytes(c, ORDER, 16, name) + Chunk(c, LoggingLevel, name) + Chunk(c, LoggingFormat, name)
  {
    NextTwo(c, name, 16);
  }

  lemma FirstSix(c: Config, name: Naming)
    ensures Bytes(c, ORDER, 6, name) ==
            "" + Chunk(c, BaseURL, name) + Chunk(c, Title, name) + Chunk(c, RenderMode, name)
            + Chunk(c, NamespaceForges, name) + Chunk(c, CloneStrategy, name) + Chunk(c, RetryBackoff, name)
  {
    NextTwo(c, name, 0);
    NextFour(c, name, 2);
  }

  // ---------------------------------------------------------------- the text that is hashed

  /** A named value closed by a zero byte, or nothing. */
  function Field(name: string, value: Option<string>): string {
    if value.None? then "" else name + "=" + value.value + [0 as char]
  }

  function ScalarText(c: Config): string {
    Field("hugo.base_url", Some(c.baseURL)) + Field("hugo.title", Some(c.title))
    + Field("build.render_mode", Some(c.renderMode)) + Field("build.namespace_forges", Some(c.namespaceForges))
    + Field("build.clone_strategy", Some(c.cloneStrategy)) + Field("build.retry_backoff", Some(c.retryBackoff))
  }

  function VersioningText(v: Option<Versioning>): string {
    if v.None? then "" else
      Field("versioning.strategy", Some(v.value.strategy)) + Field("versioning.max_versions", Some(v.value.maxVersions))
      + Field("versioning.branch_patterns", ListText(v.value.branchPatterns))
      + Field("versioning.tag_patterns", ListText(v.value.tagPatterns))
  }

  function OutputText(c: Config): string {
    Field("output.directory", Some(c.outputDirectory))
    + match c.publicOnly
      case None => ""
      case Some(true) => Field("daemon.content.public_only", Some("true"))
      case Some(false) => Field("daemon.content.public_only", Some("false"))
  }

  function FilteringText(f: Option<Filtering>): string {
    if f.None? then "" else
      Field("filtering.include_patterns", ListText(f.value.includePatterns))
      + Field("filtering.exclude_patterns", ListText(f.value.excludePatterns))
      + Field("filtering.required_paths", ListText(f.value.requiredPaths))
      + Field("filtering.ignore_files", ListText(f.value.ignoreFiles))
  }

  function MonitoringText(m: Option<Monitoring>): string {
    if m.None? then "" else
      Field("monitoring.logging.level", Some(m.value.level)) + Field("monitoring.logging.format", Some(m.value.format))
  }

  /** What is hashed, name by name and in this order. */
  lemma PreimageIsText(c: Config)
    ensures Preimage(c) ==
            ScalarText(c) + VersioningText(c.versioning) + OutputText(c) + FilteringText(c.filtering)
            + MonitoringText(c.monitoring)
  {
    ScalarsAre(c);
    VersioningIs(c, Bytes(c, ORDER, 6, Name));
    OutputIs(c, Bytes(c, ORDER, 10, Name));
    FilteringIs(c, Bytes(c, ORDER, 12, Name));
    MonitoringIs(c, Bytes(c, ORDER, 16, Name));
  }

  lemma ScalarsAre(c: Config)
    ensures Bytes(c, ORDER, 6, Name) == ScalarText(c)
  {
    FirstSix(c, Name);
    Empty(Chunk(c, BaseURL, Name));
    ScalarChunks(c);
  }

  lemma Empty(s: string)
    ensures "" + s == s
  {
  }

  lemma ScalarChunks(c: Config)
    ensures Chunk(c, BaseURL, Name) + Chunk(c, Title, Name) + Chunk(c, RenderMode, Name)
            + Chunk(c, NamespaceForges, Name) + Chunk(c, CloneStrategy, Name) + Chunk(c, RetryBackoff, Name)
            == ScalarText(c)
  {
  }

  /** Four chunks behind what has been written. */
  lemma FourAppended(s: string, a: string, b: string, c: string, d: string, text: string)
    requires a + b + c + d == text
    ensures s + a + b + c + d == s + text
  {
  }

  lemma TwoAppended(s: string, a: string, b: string, text: string)
    requires a + b == text
    ensures s + a + b == s + text
  {
  }

  lemma VersioningChunks(c: Config)
    ensures Chunk(c, VersioningStrategy, Name) + Chunk(c, MaxVersions, Name)
            + Chunk(c, BranchPatterns, Name) + Chunk(c, TagPatterns, Name) == VersioningText(c.versioning)
  {
  }

  lemma VersioningIs(c: Config, before: string)
    requires before == Bytes(c, ORDER, 6, Name)
    ensures Bytes(c, ORDER, 10, Name) == before + VersioningText(c.versioning)
  {
    VersioningSection(c, Name);
    VersioningChunks(c);
    FourAppended(before, Chunk(c, VersioningStrategy, Name), Chunk(c, MaxVersions, Name),
                 Chunk(c, BranchPatterns, Name), Chunk(c, TagPatterns, Name), VersioningText(c.versioning));
  }

  lemma OutputChunks(c: Config)
    ensures Chunk(c, OutputDirectory, Name) + Chunk(c, PublicOnly, Name) == OutputText(c)
  {
  }

  lemma OutputIs(c: Config, before: string)
    requires before == Bytes(c, ORDER, 10, Name)
    ensures Bytes(c, ORDER, 12, Name) == before + OutputText(c)
  {
    OutputSection(c, Name);
    OutputChunks(c);
    TwoAppended(before, Chunk(c, OutputDirectory, Name), Chunk(c, PublicOnly, Name), OutputText(c));
  }

  lemma FilteringChunks(c: Config)
    ensures Chunk(c, IncludePatterns, Name) + Chunk(c, ExcludePatterns, Name)
            + Chunk(c, RequiredPaths, Name) + Chunk(c, IgnoreFiles, Name) == FilteringText(c.filtering)
  {
  }

  lemma FilteringIs(c: Config, before: string)
    requires before == Bytes(c, ORDER, 12, Name)
    ensures Bytes(c, ORDER, 16, Name) == before + FilteringText(c.filtering)
  {
    FilteringSection(c, Name);
    FilteringChunks(c);
    FourAppended(before, Chunk(c, IncludePatterns, Name), Chunk(c, ExcludePatterns, Name),
                 Chunk(c, RequiredPaths, Name), Chunk(c, IgnoreFiles, Name), FilteringText(c.filtering));
  }

  lemma MonitoringChunks(c: Config)
    ensures Chunk(c, LoggingLevel, Name) + Chunk(c, LoggingFormat, Name) == MonitoringText(c.monitoring)
  {
  }

  lemma MonitoringIs(c: Config, before: string)
    requires before == Bytes(c, ORDER, 16, Name)
    ensures Bytes(c, ORDER, 18, Name) == before + MonitoringText(c.monitoring)
  {
    LoggingSection(c, Name);
    MonitoringChunks(c);
    TwoAppended(before, Chunk(c, LoggingLevel, Name), Chunk(c, LoggingFormat, Name), MonitoringText(c.monitoring));
  }

  // ---------------------------------------------------------------- what the bytes determine

  predicate Plain(s: string) {
    forall i :: 0 <= i < |s| ==> s[i] != '=' && s[i] != NUL
  }

  lemma BuildNamesPlain(k: Key)
    requires k.BaseURL? || k.Title? || k.RenderMode?
    ensures Plain(Name(k))
  {
  }

  lemma ChoiceNamesPlain(k: Key)
    requires k.NamespaceForges? || k.CloneStrategy? || k.RetryBackoff?
    ensures Plain(Name(k))
  {
  }

  lemma VersioningNamesPlain(k: Key)
    requires k.VersioningStrategy? || k.MaxVersions? || k.BranchPatterns? || k.TagPatterns?
    ensures Plain(Name(k))
  {
  }

  lemma FilteringNamesPlain(k: Key)
    requires k.IncludePatterns? || k.ExcludePatterns? || k.RequiredPaths? || k.IgnoreFiles?
    ensures Plain(Name(k))
  {
  }

  lemma LoggingNamesPlain(k: Key)
    requires k.LoggingLevel? || k.LoggingFormat?
    ensures Plain(Name(k))
  {
  }

  lemma OtherNamesPlain(k: Key)
    requires k.OutputDirectory? || k.PublicOnly?
    ensures Plain(Name(k))
  {
  }

  lemma NamePlain(k: Key)
    ensures Plain(Name(k))
  {
    match k
    case BaseURL | Title | RenderMode => BuildNamesPlain(k);
    case NamespaceForges | CloneStrategy | RetryBackoff => ChoiceNamesPlain(k);
    case VersioningStrategy | MaxVersions | BranchPatterns | TagPatterns => VersioningNamesPlain(k);
    case IncludePatterns | ExcludePatterns | RequiredPaths | IgnoreFiles => FilteringNamesPlain(k);
    case LoggingLevel | LoggingFormat => LoggingNamesPlain(k);
    case _ => OtherNamesPlain(k);
  }

  lemma NameInjective(k: Key, l: Key)
    requires Name(k) == Name(l)
    ensures k == l
  {
  }

  /** An entry determines its key and its value: the first '=' ends the key. */
  lemma EntryInjective(k: Key, v: string, l: Key, w: string)
    requires Entry(k, v) == Entry(l, w)
    ensures k == l && v == w
  {
    NamePlain(k);
    NamePlain(l);
    FirstEquals(Name(k), v, Name(l), w);
    NameInjective(k, l);
  }

  lemma FirstEquals(a: string, v: string, b: string, w: string)
    requires Plain(a) && Plain(b) && a + "=" + v == b + "=" + w
    ensures a == b && v == w
  {
    var s, t := a + "=" + v, b + "=" + w;
    assert s[|a|] == '=' && t[|b|] == '=';
    assert forall i :: 0 <= i < |a| ==> s[i] == a[i];
    assert forall i :: 0 <= i < |b| ==> t[i] == b[i];
    assert |a| == |b|;
    assert a == s[..|a|] && b == t[..|b|] && v == s[|a| + 1..] && w == t[|b| + 1..];
  }

  /** The entries for these keys, in this order. */
  function Entries(c: Config, keys: seq<Key>): seq<string> {
    if keys == [] then []
    else
      var before, k := Entries(c, keys[..|keys| - 1]), Last(keys);
      if Value(c, k).None? then before else before + [Entry(k, Value(c, k).value)]
  }

  /** The bytes are the entries, each closed by a zero byte. */
  lemma {:induction false} BytesAreEntries(c: Config, keys: seq<Key>, n: nat)
    requires n <= |keys|
    ensures Bytes(c, keys, n, Name) == Separated.Closed(Entries(c, keys[..n]), NUL)
  {
    if n > 0 {
      var m := n - 1;
      BytesAreEntries(c, keys, m);
      OneMoreChunk(c, keys, m);
      assert Bytes(c, keys, m + 1, Name) == Bytes(c, keys, m, Name) + Chunk(c, keys[m], Name);
    }
  }

  lemma OneMoreChunk(c: Config, keys: seq<Key>, n: nat)
    requires n < |keys|
    ensures Separated.Closed(Entries(c, keys[..n + 1]), NUL) ==
            Separated.Closed(Entries(c, keys[..n]), NUL) + Chunk(c, keys[n], Name)
  {
    OneLonger(keys, n);
    NextChunk(c, keys[..n], keys[n]);
  }

  lemma OneLonger(keys: seq<Key>, n: nat)
    requires n < |keys|
    ensures keys[..n] + [keys[n]] == keys[..n + 1]
  {
  }

  lemma NextChunk(c: Config, keys: seq<Key>, k: Key)
    ensures Separated.Closed(Entries(c, keys + [k]), NUL) == Separated.Closed(Entries(c, keys), NUL) + Chunk(c, k, Name)
  {
    assert (keys + [k])[..|keys|] == keys;
    if Value(c, k).Some? {
      var entry := Entry(k, Value(c, k).value);
      Separated.ClosedConcat(Entries(c, keys), [entry], NUL);
      assert [entry][1..] == [];
      assert Separated.Closed([entry], NUL) == entry + [NUL];
    }
  }

  ghost predicate HasKey(entry: string, keys: seq<Key>) {
    exists k, v :: k in keys && entry == Entry(k, v)
  }

  lemma {:induction false} EntriesHaveKeys(c: Config, keys: seq<Key>)
    ensures forall e :: e in Entries(c, keys) ==> HasKey(e, keys)
  {
    if keys != [] {
      var before, k := keys[..|keys| - 1], Last(keys);
      EntriesHaveKeys(c, before);
      forall e | e in Entries(c, keys) ensures HasKey(e, keys) {
        if HasKey(e, before) {
          var l, v :| l in before && e == Entry(l, v);
          assert l in keys;
        } else {
          assert k in keys && e == Entry(k, Value(c, k).value);
        }
      }
    }
  }

  /** The entry of another key is not among those of these keys. */
  lemma OtherKey(c: Config, keys: seq<Key>, k: Key, v: string)
    requires k !in keys
    ensures Entry(k, v) !in Entries(c, keys)
  {
    EntriesHaveKeys(c, keys);
    if HasKey(Entry(k, v), keys) {
      var l, w :| l in keys && Entry(k, v) == Entry(l, w);
      EntryInjective(k, v, l, w);
    }
  }

  /** The entries of distinct keys determine the value of every one of them. */
  lemma {:induction false} EntriesDetermine(a: Config, b: Config, keys: seq<Key>)
    requires Distinct(keys)
    ensures Entries(a, keys) == Entries(b, keys) <==> forall k :: k in keys ==> Value(a, k) == Value(b, k)
  {
    if keys != [] {
      var before, k := keys[..|keys| - 1], Last(keys);
      assert keys == before + [k] && k !in before;
      EntriesDetermine(a, b, before);
      LastEntry(a, b, before, k);
    }
  }

  lemma LastEntry(a: Config, b: Config, before: seq<Key>, k: Key)
    requires k !in before
    ensures Entries(a, before + [k]) == Entries(b, before + [k]) <==>
            Entries(a, before) == Entries(b, before) && Value(a, k) == Value(b, k)
  {
    var keys := before + [k];
    assert keys[..|keys| - 1] == before && Last(keys) == k;
    var s, t, v, w := Entries(a, before), Entries(b, before), Value(a, k), Value(b, k);
    if v.Some? && w.Some? {
      AppendInjective(s, Entry(k, v.value), t, Entry(k, w.value));
      if Entry(k, v.value) == Entry(k, w.value) {
        EntryInjective(k, v.value, k, w.value);
      }
    } else if v.Some? {
      OtherKey(b, before, k, v.value);
      assert Entry(k, v.value) in Entries(a, keys);
    } else if w.Some? {
      OtherKey(a, before, k, w.value);
      assert Entry(k, w.value) in Entries(b, keys);
    }
  }

  lemma AppendInjective(s: seq<string>, x: string, t: seq<string>, y: string)
    ensures s + [x] == t + [y] <==> s == t && x == y
  {
    if s + [x] == t + [y] {
      assert s == (s + [x])[..|s|] && t == (t + [y])[..|t|];
      assert x == Last(s + [x]) && y == Last(t + [y]);
    }
  }

  /** No value contains a zero byte. */
  ghost predicate ZeroFree(c: Config) {
    forall k :: Value(c, k).Some? ==> NUL !in Value(c, k).value
  }

  lemma {:induction false} EntriesZeroFree(c: Config, keys: seq<Key>)
    requires ZeroFree(c)
    ensures Separated.AllFree(Entries(c, keys), NUL)
  {
    if keys != [] {
      EntriesZeroFree(c, keys[..|keys| - 1]);
      NamePlain(Last(keys));
    }
  }

  lemma ClosedInjective(s: seq<string>, t: seq<string>)
    requires Separated.AllFree(s, NUL) && Separated.AllFree(t, NUL)
    requires Separated.Closed(s, NUL) == Separated.Closed(t, NUL)
    ensures s == t
  {
    Separated.SplitClosed(s, "", NUL);
    Separated.SplitClosed(t, "", NUL);
    assert Separated.Closed(s, NUL) + "" == Separated.Closed(t, NUL) + "";
    assert Separated.Split("", NUL) == [""];
    AppendInjective(s, "", t, "");
  }

  lemma OrderComplete()
    ensures Distinct(ORDER) && forall k :: k in ORDER
  {
    forall k ensures k in ORDER {
      assert ORDER[Position(k)] == k;
    }
    forall i, j | 0 <= i < j < |ORDER| ensures ORDER[i] != ORDER[j] {
      assert Position(ORDER[i]) == i && Position(ORDER[j]) == j;
    }
  }

  function Position(k: Key): (i: nat)
    ensures i < |ORDER| && ORDER[i] == k
  {
    match k
    case BaseURL => 0
    case Title => 1
    case RenderMode => 2
    case NamespaceForges => 3
    case CloneStrategy => 4
    case RetryBackoff => 5
    case VersioningStrategy => 6
    case MaxVersions => 7
    case BranchPatterns => 8
    case TagPatterns => 9
    case OutputDirectory => 10
    case PublicOnly => 11
    case IncludePatterns => 12
    case ExcludePatterns => 13
    case RequiredPaths => 14
    case IgnoreFiles => 15
    case LoggingLevel => 16
    case LoggingFormat => 17
  }

  /** The hashed bytes determine what is written for every key, and are determined by it. */
  lemma BytesDetermineValues(a: Config, b: Config)
    ensures (forall k :: Value(a, k) == Value(b, k)) ==> Preimage(a) == Preimage(b)
    ensures ZeroFree(a) && ZeroFree(b) && Preimage(a) == Preimage(b) ==> forall k :: Value(a, k) == Value(b, k)
  {
    OrderComplete();
    BytesAreEntries(a, ORDER, |ORDER|);
    BytesAreEntries(b, ORDER, |ORDER|);
    assert ORDER[..|ORDER|] == ORDER;
    EntriesDetermine(a, b, ORDER);
    if ZeroFree(a) && ZeroFree(b) && Preimage(a) == Preimage(b) {
      EntriesZeroFree(a, ORDER);
      EntriesZeroFree(b, ORDER);
      ClosedInjective(Entries(a, ORDER), Entries(b, ORDER));
    }
  }

  // ---------------------------------------------------------------- lists

  ghost predicate CommaFree(list: seq<string>) {
    forall v :: v in list ==> ',' !in v
  }

  lemma ListTextIgnoresOrder(a: seq<string>, b: seq<string>)
    requires multiset(a) == multiset(b)
    ensures ListText(a) == ListText(b)
  {
    SortedSorts(a);
    SortedSorts(b);
    WeaklySortedUnique(Sorted(a), Sorted(b));
    assert |a| == |multiset(a)| == |multiset(b)| == |b|;
  }

  /** The text of a list determines its entries and how often each occurs, unless entries contain commas. */
  lemma ListTextDetermines(a: seq<string>, b: seq<string>)
    requires CommaFree(a) && CommaFree(b)
    ensures ListText(a) == ListText(b) <==> multiset(a) == multiset(b)
  {
    if multiset(a) == multiset(b) {
      ListTextIgnoresOrder(a, b);
    }
    if ListText(a) == ListText(b) && a != [] {
      SortedFree(a);
      SortedFree(b);
      Separated.SplitUnsplit(Sorted(a), ',');
      Separated.SplitUnsplit(Sorted(b), ',');
      assert Sorted(a) == Sorted(b);
    }
  }

  lemma SortedFree(list: seq<string>)
    requires CommaFree(list)
    ensures Separated.AllFree(Sorted(list), ',') && multiset(Sorted(list)) == multiset(list)
  {
    SortedSorts(list);
    forall v | v in Sorted(list) ensures ',' !in v {
      assert v in multiset(Sorted(list));
    }
  }

  lemma CommaText()
    ensures ListText(["a,b"]) == ListText(["a", "b"])
  {
    assert ["a,b"][1..] == [] && ["a", "b"][1..] == ["b"] && ["b"][1..] == [];
    assert Sorted(["b"]) == ["b"] && Sorted(["a,b"]) == ["a,b"];
    assert !Less("b", "a");
    assert Sorted(["a", "b"]) == ["a", "b"];
    assert Separated.Unsplit(["b"], ',') == "b" && Separated.Unsplit(["a", "b"], ',') == "a,b";
  }

  // ---------------------------------------------------------------- what the fingerprint tells apart

  ghost predicate SameFiltering(f: Filtering, g: Filtering) {
    && multiset(f.includePatterns) == multiset(g.includePatterns)
    && multiset(f.excludePatterns) == multiset(g.excludePatterns)
    && multiset(f.requiredPaths) == multiset(g.requiredPaths)
    && multiset(f.ignoreFiles) == multiset(g.ignoreFiles)
  }

  ghost predicate SameVersioning(v: Option<Versioning>, w: Option<Versioning>) {
    && (v.Some? <==> w.Some?)
    && (v.Some? ==>
          && v.value.strategy == w.value.strategy && v.value.maxVersions == w.value.maxVersions
          && multiset(v.value.branchPatterns) == multiset(w.value.branchPatterns)
          && multiset(v.value.tagPatterns) == multiset(w.value.tagPatterns))
  }

  /** The same settings, up to the order of the lists; no filtering section is the same as an empty one. */
  ghost predicate SameSettings(a: Config, b: Config) {
    && a.(versioning := None, filtering := None) == b.(versioning := None, filtering := None)
    && SameVersioning(a.versioning, b.versioning)
    && SameFiltering(FilteringOf(a), FilteringOf(b))
  }

  ghost predicate FilteringCommaFree(f: Filtering) {
    CommaFree(f.includePatterns) && CommaFree(f.excludePatterns) && CommaFree(f.requiredPaths)
    && CommaFree(f.ignoreFiles)
  }

  /** No list entry contains a comma. */
  ghost predicate ListsCommaFree(c: Config) {
    && FilteringCommaFree(FilteringOf(c))
    && (c.versioning.Some? ==>
          CommaFree(c.versioning.value.branchPatterns) && CommaFree(c.versioning.value.tagPatterns))
  }

  lemma SettingsGiveValues(a: Config, b: Config, k: Key)
    requires SameSettings(a, b)
    ensures Value(a, k) == Value(b, k)
  {
    FilteringValues(a);
    FilteringValues(b);
    var f, g := FilteringOf(a), FilteringOf(b);
    match k
    case IncludePatterns => ListTextIgnoresOrder(f.includePatterns, g.includePatterns);
    case ExcludePatterns => ListTextIgnoresOrder(f.excludePatterns, g.excludePatterns);
    case RequiredPaths => ListTextIgnoresOrder(f.requiredPaths, g.requiredPaths);
    case IgnoreFiles => ListTextIgnoresOrder(f.ignoreFiles, g.ignoreFiles);
    case BranchPatterns =>
      if a.versioning.Some? {
        ListTextIgnoresOrder(a.versioning.value.branchPatterns, b.versioning.value.branchPatterns);
      }
    case TagPatterns =>
      if a.versioning.Some? {
        ListTextIgnoresOrder(a.versioning.value.tagPatterns, b.versioning.value.tagPatterns);
      }
    case _ =>
  }

  lemma ValuesGiveFiltering(a: Config, b: Config)
    requires (forall k :: Value(a, k) == Value(b, k)) && ListsCommaFree(a) && ListsCommaFree(b)
    ensures SameFiltering(FilteringOf(a), FilteringOf(b))
  {
    FilteringValues(a);
    FilteringValues(b);
    var f, g := FilteringOf(a), FilteringOf(b);
    assert Value(a, IncludePatterns) == Value(b, IncludePatterns);
    assert Value(a, ExcludePatterns) == Value(b, ExcludePatterns);
    assert Value(a, RequiredPaths) == Value(b, RequiredPaths) && Value(a, IgnoreFiles) == Value(b, IgnoreFiles);
    ListTextDetermines(f.includePatterns, g.includePatterns);
    ListTextDetermines(f.excludePatterns, g.excludePatterns);
    ListTextDetermines(f.requiredPaths, g.requiredPaths);
    ListTextDetermines(f.ignoreFiles, g.ignoreFiles);
  }

  lemma ValuesGiveVersioning(a: Config, b: Config)
    requires (forall k :: Value(a, k) == Value(b, k)) && ListsCommaFree(a) && ListsCommaFree(b)
    ensures SameVersioning(a.versioning, b.versioning)
  {
    assert Value(a, VersioningStrategy) == Value(b, VersioningStrategy);
    assert Value(a, MaxVersions) == Value(b, MaxVersions);
    assert Value(a, BranchPatterns) == Value(b, BranchPatterns) && Value(a, TagPatterns) == Value(b, TagPatterns);
    if a.versioning.Some? && b.versioning.Some? {
      ListTextDetermines(a.versioning.value.branchPatterns, b.versioning.value.branchPatterns);
      ListTextDetermines(a.versioning.value.tagPatterns, b.versioning.value.tagPatterns);
    }
  }

  lemma ValuesGiveScalars(a: Config, b: Config)
    requires forall k :: Value(a, k) == Value(b, k)
    ensures a.(versioning := None, filtering := None) == b.(versioning := None, filtering := None)
  {
    assert Value(a, BaseURL) == Value(b, BaseURL) && Value(a, Title) == Value(b, Title);
    assert Value(a, RenderMode) == Value(b, RenderMode) && Value(a, NamespaceForges) == Value(b, NamespaceForges);
    assert Value(a, CloneStrategy) == Value(b, CloneStrategy) && Value(a, RetryBackoff) == Value(b, RetryBackoff);
    assert Value(a, OutputDirectory) == Value(b, OutputDirectory) && Value(a, PublicOnly) == Value(b, PublicOnly);
    assert Value(a, LoggingLevel) == Value(b, LoggingLevel) && Value(a, LoggingFormat) == Value(b, LoggingFormat);
  }

  /** The fingerprint ignores the order of all lists. It tells any other change apart, as long as no value
      contains a zero byte and no list entry a comma. */
  lemma FingerprintIffSettings(a: Config, b: Config)
    ensures SameSettings(a, b) ==> Preimage(a) == Preimage(b)
    ensures ZeroFree(a) && ZeroFree(b) && ListsCommaFree(a) && ListsCommaFree(b) && Preimage(a) == Preimage(b) ==>
              SameSettings(a, b)
  {
    BytesDetermineValues(a, b);
    if SameSettings(a, b) {
      forall k ensures Value(a, k) == Value(b, k) {
        SettingsGiveValues(a, b, k);
      }
    }
    if ZeroFree(a) && ZeroFree(b) && ListsCommaFree(a) && ListsCommaFree(b) && Preimage(a) == Preimage(b) {
      ValuesGiveScalars(a, b);
      ValuesGiveVersioning(a, b);
      ValuesGiveFiltering(a, b);
    }
  }

  // ---------------------------------------------------------------- what the fingerprint misses

  /** An entry with a comma reads like two entries: different settings with one fingerprint. */
  lemma CommaCollides(c: Config) returns (a: Config, b: Config)
    ensures a == c.(filtering := Some(NO_FILTERING.(includePatterns := ["a,b"])))
    ensures b == c.(filtering := Some(NO_FILTERING.(includePatterns := ["a", "b"])))
    ensures !SameSettings(a, b) && Preimage(a) == Preimage(b)
  {
    a := c.(filtering := Some(NO_FILTERING.(includePatterns := ["a,b"])));
    b := c.(filtering := Some(NO_FILTERING.(includePatterns := ["a", "b"])));
    assert |multiset(["a,b"])| == 1 && |multiset(["a", "b"])| == 2;
    CommaText();
    BytesDetermineValues(a, b);
  }

  /** A zero byte ends a value early: text can move from one value to the next. */
  lemma ZeroByteCollides(c: Config, x: string, y: string, z: string) returns (a: Config, b: Config)
    ensures a == c.(baseURL := x + [NUL] + (Entry(Title, y)), title := z)
    ensures b == c.(baseURL := x, title := y + [NUL] + Entry(Title, z))
    ensures !SameSettings(a, b) && Preimage(a) == Preimage(b)
  {
    a := c.(baseURL := x + [NUL] + (Entry(Title, y)), title := z);
    b := c.(baseURL := x, title := y + [NUL] + Entry(Title, z));
    FirstTwoSame(a, b, x, y, z);
    SameBehindTitle(a, b, |ORDER|);
    assert |a.baseURL| > |b.baseURL|;
    OtherURL(a, b);
  }

  lemma BehindTitle(i: nat)
    requires 2 <= i < |ORDER|
    ensures !ORDER[i].BaseURL? && !ORDER[i].Title?
  {
  }

  lemma OtherValueSame(a: Config, b: Config, k: Key)
    requires a.(baseURL := b.baseURL, title := b.title) == b && !k.BaseURL? && !k.Title?
    ensures Value(a, k) == Value(b, k)
  {
  }

  lemma OtherURL(a: Config, b: Config)
    requires a.baseURL != b.baseURL
    ensures !SameSettings(a, b)
  {
  }

  lemma FirstTwoSame(a: Config, b: Config, x: string, y: string, z: string)
    requires a.baseURL == x + [NUL] + Entry(Title, y) && a.title == z
    requires b.baseURL == x && b.title == y + [NUL] + Entry(Title, z)
    ensures Bytes(a, ORDER, 2, Name) == Bytes(b, ORDER, 2, Name)
  {
    FirstTwo(a);
    FirstTwo(b);
    Moved("", Name(BaseURL) + "=", x, y, z, Name(Title) + "=");
  }

  lemma FirstTwo(c: Config)
    ensures Bytes(c, ORDER, 2, Name) ==
            "" + (Name(BaseURL) + "=" + c.baseURL + [NUL]) + (Name(Title) + "=" + c.title + [NUL])
  {
    NextTwo(c, Name, 0);
    assert ORDER[0] == BaseURL && ORDER[1] == Title;
  }

  lemma Moved(start: string, k: string, x: string, y: string, z: string, l: string)
    ensures start + (k + (x + [NUL] + (l + y)) + [NUL]) + (l + z + [NUL])
         == start + (k + x + [NUL]) + (l + (y + [NUL] + (l + z)) + [NUL])
  {
  }

  /** Behind the title, configurations that differ in base URL and title only feed the same bytes. */
  lemma {:induction false} SameBehindTitle(a: Config, b: Config, n: nat)
    requires a.(baseURL := b.baseURL, title := b.title) == b && 2 <= n <= |ORDER|
    requires Bytes(a, ORDER, 2, Name) == Bytes(b, ORDER, 2, Name)
    ensures Bytes(a, ORDER, n, Name) == Bytes(b, ORDER, n, Name)
    decreases n
  {
    if n > 2 {
      var m := n - 1;
      SameBehindTitle(a, b, m);
      BehindTitle(m);
      OtherValueSame(a, b, ORDER[m]);
      NextSame(a, b, ORDER, Name, m);
      assert m + 1 == n;
    }
  }

  lemma NextSame(a: Config, b: Config, keys: seq<Key>, name: Naming, n: nat)
    requires n < |keys| && Bytes(a, keys, n, name) == Bytes(b, keys, n, name)
    requires Value(a, keys[n]) == Value(b, keys[n])
    ensures Bytes(a, keys, n + 1, name) == Bytes(b, keys, n + 1, name)
  {
    SameChunk(a, b, keys[n], name);
  }

  lemma SameChunk(a: Config, b: Config, k: Key, name: Naming)
    requires Value(a, k) == Value(b, k)
    ensures Chunk(a, k, name) == Chunk(b, k, name)
  {
  }

  /** A missing filtering section and an empty one are different configurations with one fingerprint. */
  lemma EmptyFilteringUnseen(c: Config) returns (a: Config, b: Config)
    ensures a == c.(filtering := None) && b == c.(filtering := Some(NO_FILTERING))
    ensures a != b && Preimage(a) == Preimage(b)
  {
    a, b := c.(filtering := None), c.(filtering := Some(NO_FILTERING));
    FingerprintIffSettings(a, b);
  }

  // ---------------------------------------------------------------- normalized configurations

  ghost predicate SameWanted(f: Filtering, g: Filtering) {
    && Wanted(f.includePatterns) == Wanted(g.includePatterns)
    && Wanted(f.excludePatterns) == Wanted(g.excludePatterns)
    && Wanted(f.requiredPaths) == Wanted(g.requiredPaths)
    && Wanted(f.ignoreFiles) == Wanted(g.ignoreFiles)
  }

  /** After normalization, filtering lists that differ only by order, repetitions, padding or blanks give
      the same fingerprint; lists with other entries give another one. */
  lemma FingerprintIgnoresNoise(c: Config, f: Filtering, g: Filtering, normalF: Filtering, normalG: Filtering)
    requires FilteringNormalized(f, normalF) && FilteringNormalized(g, normalG)
    ensures var a, b := c.(filtering := Some(normalF)), c.(filtering := Some(normalG));
            && (SameWanted(f, g) ==> Preimage(a) == Preimage(b))
            && (ZeroFree(a) && ZeroFree(b) && ListsCommaFree(a) && ListsCommaFree(b) && Preimage(a) == Preimage(b) ==>
                  SameWanted(f, g))
  {
    var a, b := c.(filtering := Some(normalF)), c.(filtering := Some(normalG));
    if SameWanted(f, g) {
      NormalIsUnique(f.includePatterns, normalF.includePatterns, g.includePatterns, normalG.includePatterns);
      NormalIsUnique(f.excludePatterns, normalF.excludePatterns, g.excludePatterns, normalG.excludePatterns);
      NormalIsUnique(f.requiredPaths, normalF.requiredPaths, g.requiredPaths, normalG.requiredPaths);
      NormalIsUnique(f.ignoreFiles, normalF.ignoreFiles, g.ignoreFiles, normalG.ignoreFiles);
    }
    FingerprintIffSettings(a, b);
    if SameFiltering(normalF, normalG) {
      SameElements(f.includePatterns, normalF.includePatterns, g.includePatterns, normalG.includePatterns);
      SameElements(f.excludePatterns, normalF.excludePatterns, g.excludePatterns, normalG.excludePatterns);
      SameElements(f.requiredPaths, normalF.requiredPaths, g.requiredPaths, normalG.requiredPaths);
      SameElements(f.ignoreFiles, normalF.ignoreFiles, g.ignoreFiles, normalG.ignoreFiles);
    }
  }

  lemma SameElements(a: seq<string>, normalA: seq<string>, b: seq<string>, normalB: seq<string>)
    requires IsNormal(a, normalA) && IsNormal(b, normalB) && multiset(normalA) == multiset(normalB)
    ensures Wanted(a) == Wanted(b)
  {
    forall s ensures s in Wanted(a) <==> s in Wanted(b) {
      InMultiset(normalA, s);
      InMultiset(normalB, s);
    }
  }
}
