/** Repository updates that may skip the fetch: the steps of the updates of several clones, of pushes to
    their remotes, and of the life of the shared cache, in any order. */
module FetchProtocol {
  import opened Common
  import opened CommitGraph
  import opened RemoteHeads

  /** A remote branch. */
  datatype Source = Source(url: string, branch: string) {
    function Key(): string {
      CacheKey(url, branch)
    }
  }

  /** Where the update of a clone stands. `start` is the position, in the remote's history, of the head
      at the time of the check; `listed` is what the check reported. */
  datatype Phase =
    | Idle
    | MustFetch(start: nat, listed: Option<Hash>)
    | Fetched(start: nat, listed: Option<Hash>)
    | Ready(start: nat)

  datatype Clone = Clone(source: Source, tracking: Hash, worktree: Hash, phase: Phase)

  /** `remote` holds the successive heads of every branch; `saved` the caches written to disk so far. */
  datatype State = State(
    remote: map<Source, seq<Hash>>, clones: map<string, Clone>, cache: Entries, saved: seq<Entries>)

  datatype Event =
    | Push(source: Source, sha: Hash)
    | CloneAfresh(name: string, source: Source)
    | Check(name: string, listed: bool)
    | FetchSucceeds(name: string)
    | RecordHead(name: string)
    | Sync(name: string, succeeds: bool)
    | Abort(name: string)
    | Evict(source: Source)
    | EvictUrl(url: string)
    | Save
    | Restart(from: Option<nat>)

  // ---------------------------------------------------------------- the steps

  predicate Knows(s: State, name: string) {
    name in s.clones && s.clones[name].source in s.remote && s.remote[s.clones[name].source] != []
  }

  /** Pushes add a new commit; a clone is made of an existing branch that no other clone has. */
  predicate Enabled(s: State, e: Event) {
    match e
    case Push(source, sha) => source in s.remote && sha !in s.remote[source]
    case CloneAfresh(name, source) =>
      source in s.remote && s.remote[source] != []
      && forall n :: n in s.clones && n != name ==> s.clones[n].source != source
    case Check(name, _) => Knows(s, name) && s.clones[name].phase.Idle?
    case FetchSucceeds(name) => Knows(s, name) && s.clones[name].phase.MustFetch?
    case RecordHead(name) => Knows(s, name) && s.clones[name].phase.Fetched?
    case Sync(name, _) => Knows(s, name) && s.clones[name].phase.Ready?
    case Abort(name) => Knows(s, name)
    case Evict(_) => true
    case EvictUrl(_) => true
    case Save => true
    case Restart(from) => from.Some? ==> from.value < |s.saved|
  }

  function Head(s: State, source: Source): Hash
    requires source in s.remote && s.remote[source] != []
  {
    Last(s.remote[source])
  }

  function WithPhase(s: State, name: string, phase: Phase): State
    requires name in s.clones
  {
    s.(clones := s.clones[name := s.clones[name].(phase := phase)])
  }

  function Stopped(clones: map<string, Clone>): map<string, Clone> {
    map n | n in clones :: clones[n].(phase := Idle)
  }

  /** The check lists the remote head, or fails to, and then decides from the cache. */
  function CheckStep(s: State, name: string, canList: bool): State
    requires Knows(s, name)
  {
    var source := s.clones[name].source;
    var start := |s.remote[source]| - 1;
    var listed := if canList then Some(Head(s, source)) else None;
    WithPhase(s, name,
              if FetchNeeded(s.cache, source.url, source.branch, listed) then MustFetch(start, listed)
              else Ready(start))
  }

  function Step(s: State, e: Event): State
    requires Enabled(s, e)
  {
    match e
    case Push(source, sha) => s.(remote := s.remote[source := s.remote[source] + [sha]])
    case CloneAfresh(name, source) =>
      s.(clones := s.clones[name := Clone(source, Head(s, source), Head(s, source), Idle)])
    case Check(name, canList) => CheckStep(s, name, canList)
    case FetchSucceeds(name) =>
      var c := s.clones[name];
      s.(clones := s.clones[name := c.(tracking := Head(s, c.source), phase := Fetched(c.phase.start, c.phase.listed))])
    case RecordHead(name) =>
      var c := s.clones[name];
      var recorded := if c.phase.listed.None? then s else
        s.(cache := s.cache[c.source.Key() := Entry(c.source.url, c.source.branch, c.phase.listed.value)]);
      WithPhase(recorded, name, Ready(c.phase.start))
    case Sync(name, succeeds) =>
      var c := s.clones[name];
      s.(clones := s.clones[name := c.(worktree := if succeeds then c.tracking else c.worktree, phase := Idle)])
    case Abort(name) => WithPhase(s, name, Idle)
    case Evict(source) => s.(cache := s.cache - {source.Key()})
    case EvictUrl(url) => s.(cache := if url == "" then s.cache else Without(s.cache, url))
    case Save => s.(saved := s.saved + [s.cache])
    case Restart(from) =>
      s.(cache := if from.Some? then s.saved[from.value] else map[], clones := Stopped(s.clones))
  }

  // ---------------------------------------------------------------- what forces a fetch

  /** The check of a clone whose branch has no cache entry, or whose remote cannot be listed, leads to a
      fetch. */
  lemma UnknownMustFetch(s: State, name: string, canList: bool)
    requires Enabled(s, Check(name, canList))
    requires s.clones[name].source.url + ":" + s.clones[name].source.branch !in s.cache || !canList
    ensures Step(s, Check(name, canList)).clones[name].phase.MustFetch?
  {
  }

  /** Evictions remove the entries that they name and no others; a restart without a saved cache removes all. */
  lemma EvictionsForget(s: State, source: Source, url: string)
    ensures source.url + ":" + source.branch !in Step(s, Evict(source)).cache
    ensures forall k :: k in s.cache && k != source.url + ":" + source.branch ==>
              k in Step(s, Evict(source)).cache && Step(s, Evict(source)).cache[k] == s.cache[k]
    ensures url != "" ==> forall k :: k in Step(s, EvictUrl(url)).cache <==> k in s.cache && s.cache[k].url != url
    ensures Step(s, Restart(None)).cache == map[]
    ensures forall n :: n in s.clones ==> Step(s, Restart(None)).clones[n] == s.clones[n].(phase := Idle)
  {
  }

  /** The clone that an event is about. */
  function Subject(e: Event): Option<string> {
    match e
    case CloneAfresh(name, _) => Some(name)
    case Check(name, _) => Some(name)
    case FetchSucceeds(name) => Some(name)
    case RecordHead(name) => Some(name)
    case Sync(name, _) => Some(name)
    case Abort(name) => Some(name)
    case _ => None
  }

  /** The update of one clone leaves all others alone; only a restart stops them. */
  lemma OthersAreLeftAlone(s: State, e: Event, n: string)
    requires Enabled(s, e) && n in s.clones && Subject(e) != Some(n)
    ensures n in Step(s, e).clones
    ensures Step(s, e).clones[n] == if e.Restart? then s.clones[n].(phase := Idle) else s.clones[n]
  {
  }

  /** An update that is given up, or whose sync fails, can start over, with the clone as it was. */
  lemma StartsOver(s: State, e: Event, name: string)
    requires Enabled(s, e) && (e == Abort(name) || e == Sync(name, false))
    ensures var r := Step(s, e);
            && Enabled(r, Check(name, true)) && r.remote == s.remote && r.cache == s.cache && r.saved == s.saved
            && r.clones == s.clones[name := s.clones[name].(phase := Idle)]
  {
  }

  /** A saved cache comes back with a restart from it. */
  lemma SavedComesBack(s: State)
    ensures var saved := Step(s, Save);
            && Enabled(saved, Restart(Some(|s.saved|)))
            && Step(saved, Restart(Some(|s.saved|))).cache == s.cache
            && (forall i :: 0 <= i < |s.saved| ==> saved.saved[i] == s.saved[i])
  {
  }

  // ---------------------------------------------------------------- the invariant

  /** `a` was a head of the branch no later than `b`. */
  ghost predicate NotNewer(log: seq<Hash>, a: Hash, b: Hash) {
    exists i, j :: 0 <= i <= j < |log| && log[i] == a && log[j] == b
  }

  /** `a` is a head of the branch at position `at` or later. */
  ghost predicate AtLeast(log: seq<Hash>, a: Hash, at: nat) {
    exists i :: at <= i < |log| && log[i] == a
  }

  ghost predicate RemotesOk(s: State) {
    && (forall source :: source in s.remote ==> Distinct(s.remote[source]) && ':' !in source.branch)
    && (forall n :: n in s.clones ==> Knows(s, n))
    && (forall n, m :: n in s.clones && m in s.clones && n != m ==> s.clones[n].source != s.clones[m].source)
  }

  /** Whatever a cache says about a branch was its head before it was last fetched by the clone. */
  ghost predicate CacheOk(remote: map<Source, seq<Hash>>, clones: map<string, Clone>, entries: Entries) {
    && (forall source :: source in remote && source.Key() in entries ==>
          entries[source.Key()].sha in remote[source])
    && (forall n :: n in clones && clones[n].source in remote && clones[n].source.Key() in entries ==>
          NotNewer(remote[clones[n].source], entries[clones[n].source.Key()].sha, clones[n].tracking))
  }

  ghost predicate CloneOk(log: seq<Hash>, c: Clone) {
    && NotNewer(log, c.worktree, c.tracking)
    && match c.phase
       case Idle => true
       case MustFetch(start, listed) => start < |log| && (listed.Some? ==> listed.value in log)
       case Fetched(start, listed) =>
         AtLeast(log, c.tracking, start) && (listed.Some? ==> NotNewer(log, listed.value, c.tracking))
       case Ready(start) => AtLeast(log, c.tracking, start)
  }

  ghost predicate Invariant(s: State) {
    && RemotesOk(s)
    && CacheOk(s.remote, s.clones, s.cache)
    && (forall i :: 0 <= i < |s.saved| ==> CacheOk(s.remote, s.clones, s.saved[i]))
    && (forall n :: n in s.clones ==> CloneOk(s.remote[s.clones[n].source], s.clones[n]))
  }

  // ---------------------------------------------------------------- facts about one history

  lemma HeadIsNewest(log: seq<Hash>, sha: Hash)
    requires sha in log
    ensures NotNewer(log, sha, Last(log)) && AtLeast(log, Last(log), |log| - 1)
  {
    var i :| 0 <= i < |log| && log[i] == sha;
    assert log[|log| - 1] == Last(log);
  }

  lemma PushKeeps(log: seq<Hash>, sha: Hash, a: Hash, b: Hash, at: nat)
    ensures NotNewer(log, a, b) ==> NotNewer(log + [sha], a, b)
    ensures AtLeast(log, a, at) ==> AtLeast(log + [sha], a, at)
  {
    if NotNewer(log, a, b) {
      var i, j :| 0 <= i <= j < |log| && log[i] == a && log[j] == b;
      assert (log + [sha])[i] == a && (log + [sha])[j] == b;
    }
    if AtLeast(log, a, at) {
      var i :| at <= i < |log| && log[i] == a;
      assert (log + [sha])[i] == a;
    }
  }

  /** Nothing but the head itself is no older than the head. */
  lemma NewestIsHead(log: seq<Hash>, b: Hash)
    requires log != [] && Distinct(log) && NotNewer(log, Last(log), b)
    ensures b == Last(log)
  {
    var i, j :| 0 <= i <= j < |log| && log[i] == Last(log) && log[j] == b;
    assert i == |log| - 1;
  }

  lemma CloneOkAfterPush(log: seq<Hash>, sha: Hash, c: Clone)
    requires CloneOk(log, c)
    ensures CloneOk(log + [sha], c)
  {
    PushKeeps(log, sha, c.worktree, c.tracking, 0);
    if c.phase.Fetched? {
      PushKeeps(log, sha, c.tracking, c.tracking, c.phase.start);
      if c.phase.listed.Some? {
        PushKeeps(log, sha, c.phase.listed.value, c.tracking, 0);
      }
    } else if c.phase.Ready? {
      PushKeeps(log, sha, c.tracking, c.tracking, c.phase.start);
    }
  }

  // ---------------------------------------------------------------- what every step keeps

  lemma CacheOkAfterPush(s: State, source: Source, sha: Hash, entries: Entries)
    requires RemotesOk(s) && source in s.remote && CacheOk(s.remote, s.clones, entries)
    ensures CacheOk(s.remote[source := s.remote[source] + [sha]], s.clones, entries)
  {
    forall n | n in s.clones && s.clones[n].source in s.remote && s.clones[n].source.Key() in entries
      ensures NotNewer(s.remote[source := s.remote[source] + [sha]][s.clones[n].source],
                       entries[s.clones[n].source.Key()].sha, s.clones[n].tracking)
    {
      PushKeeps(s.remote[source], sha, entries[s.clones[n].source.Key()].sha, s.clones[n].tracking, 0);
    }
  }

  lemma PushStep(s: State, source: Source, sha: Hash)
    requires Invariant(s) && Enabled(s, Push(source, sha))
    ensures Invariant(Step(s, Push(source, sha)))
  {
    var s' := Step(s, Push(source, sha));
    CacheOkAfterPush(s, source, sha, s.cache);
    forall i | 0 <= i < |s.saved| ensures CacheOk(s'.remote, s'.clones, s'.saved[i]) {
      CacheOkAfterPush(s, source, sha, s.saved[i]);
    }
    forall n | n in s.clones ensures CloneOk(s'.remote[s.clones[n].source], s.clones[n]) {
      CloneOkAfterPush(s.remote[s.clones[n].source], sha, s.clones[n]);
    }
  }

  /** A clone whose tracking ref is the head fits any cache that fits the branch. */
  lemma CacheOkAtHead(s: State, name: string, c: Clone, entries: Entries)
    requires RemotesOk(s) && CacheOk(s.remote, s.clones, entries)
    requires c.source in s.remote && s.remote[c.source] != [] && c.tracking == Head(s, c.source)
    ensures CacheOk(s.remote, s.clones[name := c], entries)
  {
    var key := c.source.Key();
    if key in entries {
      HeadIsNewest(s.remote[c.source], entries[key].sha);
    }
  }

  lemma ReplacedRemotes(s: State, name: string, c: Clone)
    requires RemotesOk(s) && c.source in s.remote && s.remote[c.source] != []
    requires forall n :: n in s.clones && n != name ==> s.clones[n].source != c.source
    ensures RemotesOk(s.(clones := s.clones[name := c]))
  {
  }

  /** A clone that fits its branch may replace the one of its name, or be new, at the newest head. */
  lemma ReplaceAtHead(s: State, name: string, c: Clone)
    requires Invariant(s) && c.source in s.remote && s.remote[c.source] != []
    requires forall n :: n in s.clones && n != name ==> s.clones[n].source != c.source
    requires CloneOk(s.remote[c.source], c) && c.tracking == Head(s, c.source)
    ensures Invariant(s.(clones := s.clones[name := c]))
  {
    var s' := s.(clones := s.clones[name := c]);
    ReplacedRemotes(s, name, c);
    CacheOkAtHead(s, name, c, s.cache);
    forall i | 0 <= i < |s.saved| ensures CacheOk(s'.remote, s'.clones, s'.saved[i]) {
      CacheOkAtHead(s, name, c, s.saved[i]);
    }
  }

  /** The same at an unchanged tracking ref. */
  lemma ReplaceInPlace(s: State, name: string, c: Clone)
    requires Invariant(s) && name in s.clones && c.source == s.clones[name].source
    requires c.tracking == s.clones[name].tracking && CloneOk(s.remote[c.source], c)
    ensures Invariant(s.(clones := s.clones[name := c]))
  {
    var s' := s.(clones := s.clones[name := c]);
    ReplacedRemotes(s, name, c);
    CacheOkInPlace(s, name, c, s.cache);
    forall i | 0 <= i < |s.saved| ensures CacheOk(s'.remote, s'.clones, s'.saved[i]) {
      CacheOkInPlace(s, name, c, s.saved[i]);
    }
  }

  lemma CacheOkInPlace(s: State, name: string, c: Clone, entries: Entries)
    requires CacheOk(s.remote, s.clones, entries) && name in s.clones
    requires c.source == s.clones[name].source && c.tracking == s.clones[name].tracking
    ensures CacheOk(s.remote, s.clones[name := c], entries)
  {
  }

  lemma HeadFits(s: State, source: Source)
    requires source in s.remote && s.remote[source] != []
    ensures AtLeast(s.remote[source], Head(s, source), |s.remote[source]| - 1)
    ensures forall sha :: sha in s.remote[source] ==> NotNewer(s.remote[source], sha, Head(s, source))
    ensures Head(s, source) in s.remote[source]
  {
    forall sha | sha in s.remote[source] ensures NotNewer(s.remote[source], sha, Head(s, source)) {
      HeadIsNewest(s.remote[source], sha);
    }
    HeadIsNewest(s.remote[source], Head(s, source));
  }

  /** A fetch is only skipped when the tracking ref is the head that the check has just listed. */
  lemma SkippedFetchIsSafe(s: State, name: string, canList: bool)
    requires Invariant(s) && Enabled(s, Check(name, canList))
    requires Step(s, Check(name, canList)).clones[name].phase.Ready?
    ensures canList && s.clones[name].tracking == Head(s, s.clones[name].source)
  {
    var c := s.clones[name];
    NewestIsHead(s.remote[c.source], c.tracking);
  }

  lemma CheckInvariant(s: State, name: string, canList: bool)
    requires Invariant(s) && Enabled(s, Check(name, canList))
    ensures Invariant(Step(s, Check(name, canList)))
  {
    var c := Step(s, Check(name, canList)).clones[name];
    HeadFits(s, c.source);
    if c.phase.Ready? {
      SkippedFetchIsSafe(s, name, canList);
    }
    ReplaceInPlace(s, name, c);
  }

  lemma FetchInvariant(s: State, name: string)
    requires Invariant(s) && Enabled(s, FetchSucceeds(name))
    ensures Invariant(Step(s, FetchSucceeds(name)))
  {
    var c := Step(s, FetchSucceeds(name)).clones[name];
    HeadFits(s, c.source);
    ReplaceAtHead(s, name, c);
  }

  lemma CloneInvariant(s: State, name: string, source: Source)
    requires Invariant(s) && Enabled(s, CloneAfresh(name, source))
    ensures Invariant(Step(s, CloneAfresh(name, source)))
  {
    HeadFits(s, source);
    ReplaceAtHead(s, name, Step(s, CloneAfresh(name, source)).clones[name]);
  }

  lemma SyncInvariant(s: State, name: string, succeeds: bool)
    requires Invariant(s) && Enabled(s, Sync(name, succeeds))
    ensures Invariant(Step(s, Sync(name, succeeds)))
  {
    var c := s.clones[name];
    var log := s.remote[c.source];
    var i, j :| 0 <= i <= j < |log| && log[i] == c.worktree && log[j] == c.tracking;
    assert NotNewer(log, c.tracking, c.tracking);
    ReplaceInPlace(s, name, Step(s, Sync(name, succeeds)).clones[name]);
  }

  lemma AbortInvariant(s: State, name: string)
    requires Invariant(s) && name in s.clones
    ensures Invariant(WithPhase(s, name, Idle))
  {
    ReplaceInPlace(s, name, s.clones[name].(phase := Idle));
  }

  /** A smaller cache fits whenever the larger one does. */
  lemma SmallerCache(s: State, entries: Entries)
    requires Invariant(s) && forall k :: k in entries ==> k in s.cache && entries[k] == s.cache[k]
    ensures Invariant(s.(cache := entries))
  {
  }

  lemma RecordedCacheOk(s: State, name: string, sha: Hash)
    requires Invariant(s) && name in s.clones
    requires NotNewer(s.remote[s.clones[name].source], sha, s.clones[name].tracking)
    ensures var source := s.clones[name].source;
            CacheOk(s.remote, s.clones, s.cache[source.Key() := Entry(source.url, source.branch, sha)])
  {
    var source := s.clones[name].source;
    forall other | other in s.remote && other.Key() == source.Key() ensures other == source {
      CacheKeyInjective(other.url, other.branch, source.url, source.branch);
    }
  }

  lemma RecordInvariant(s: State, name: string)
    requires Invariant(s) && Enabled(s, RecordHead(name))
    ensures Invariant(Step(s, RecordHead(name)))
  {
    var c := s.clones[name];
    if c.phase.listed.Some? {
      RecordedCacheOk(s, name, c.phase.listed.value);
    }
    var recorded := s.(cache := Step(s, RecordHead(name)).cache);
    assert Invariant(recorded);
    ReplaceInPlace(recorded, name, c.(phase := Ready(c.phase.start)));
  }

  lemma RestartInvariant(s: State, from: Option<nat>)
    requires Invariant(s) && Enabled(s, Restart(from))
    ensures Invariant(Step(s, Restart(from)))
  {
    var s' := Step(s, Restart(from));
    StoppedRemotes(s, s');
    assert CacheOk(s.remote, s.clones, s'.cache);
    CacheOkStopped(s.remote, s.clones, s'.cache);
    forall i | 0 <= i < |s.saved| ensures CacheOk(s'.remote, s'.clones, s'.saved[i]) {
      CacheOkStopped(s.remote, s.clones, s.saved[i]);
    }
  }

  lemma StoppedRemotes(s: State, s': State)
    requires Invariant(s) && s'.remote == s.remote && s'.clones == Stopped(s.clones)
    ensures RemotesOk(s') && forall n :: n in s'.clones ==> CloneOk(s'.remote[s'.clones[n].source], s'.clones[n])
  {
    forall n | n in s'.clones ensures CloneOk(s'.remote[s'.clones[n].source], s'.clones[n]) {
      assert CloneOk(s.remote[s.clones[n].source], s.clones[n]);
    }
  }

  lemma CacheOkStopped(remote: map<Source, seq<Hash>>, clones: map<string, Clone>, entries: Entries)
    requires CacheOk(remote, clones, entries)
    ensures CacheOk(remote, Stopped(clones), entries)
  {
  }

  lemma StepInvariant(s: State, e: Event)
    requires Invariant(s) && Enabled(s, e)
    ensures Invariant(Step(s, e))
  {
    match e
    case Push(source, sha) => PushStep(s, source, sha);
    case CloneAfresh(name, source) => CloneInvariant(s, name, source);
    case Check(name, canList) => CheckInvariant(s, name, canList);
    case FetchSucceeds(name) => FetchInvariant(s, name);
    case RecordHead(name) => RecordInvariant(s, name);
    case Sync(name, succeeds) => SyncInvariant(s, name, succeeds);
    case Abort(name) => AbortInvariant(s, name);
    case Evict(source) => SmallerCache(s, s.cache - {source.Key()});
    case EvictUrl(url) => SmallerCache(s, if url == "" then s.cache else Without(s.cache, url));
    case Save =>
    case Restart(from) => RestartInvariant(s, from);
  }
}
