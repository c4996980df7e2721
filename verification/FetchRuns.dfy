/** Runs of the fetch protocol: a skipped fetch and a finished update are never stale. */
module FetchRuns {
  import opened Common
  import opened CommitGraph
  import opened RemoteHeads
  import opened FetchProtocol

  function Next(s: State, e: Event): State {
    if Enabled(s, e) then Step(s, e) else s
  }

  function After(s0: State, es: seq<Event>): State {
    if es == [] then s0 else Next(After(s0, es[..|es| - 1]), Last(es))
  }

  /** A run from any remotes whose branches only move forward, with nothing cloned or cached. */
  ghost predicate ValidRun(s0: State, es: seq<Event>) {
    && RemotesOk(s0) && s0.clones == map[] && s0.cache == map[] && s0.saved == []
    && forall k :: 0 <= k < |es| ==> Enabled(After(s0, es[..k]), es[k])
  }

  lemma AfterNext(s0: State, es: seq<Event>, k: nat)
    requires ValidRun(s0, es) && k < |es|
    ensures After(s0, es[..k + 1]) == Step(After(s0, es[..k]), es[k])
  {
    assert es[..k + 1][..k] == es[..k];
    assert Enabled(After(s0, es[..k]), es[k]);
  }

  lemma {:induction false} RunKeepsInvariant(s0: State, es: seq<Event>, k: nat)
    requires ValidRun(s0, es) && k <= |es|
    ensures Invariant(After(s0, es[..k]))
  {
    if k > 0 {
      RunKeepsInvariant(s0, es, k - 1);
      var s := After(s0, es[..k - 1]);
      assert Enabled(s, es[k - 1]);
      StepInvariant(s, es[k - 1]);
      AfterNext(s0, es, k - 1);
    }
  }

  /** In every run of pushes, clones, checks, fetches, failures, evictions and restarts from an older
      cache: when a check decides to skip the fetch, the tracking ref is the remote head. */
  lemma SkipsAreSafe(s0: State, es: seq<Event>, k: nat, name: string)
    requires ValidRun(s0, es) && k < |es| && es[k].Check? && es[k].name == name
    requires name in After(s0, es[..k + 1]).clones && After(s0, es[..k + 1]).clones[name].phase.Ready?
    ensures var s := After(s0, es[..k]);
            Knows(s, name) && s.clones[name].tracking == Head(s, s.clones[name].source)
  {
    RunKeepsInvariant(s0, es, k);
    AfterNext(s0, es, k);
    assert Enabled(After(s0, es[..k]), es[k]);
    SkippedFetchIsSafe(After(s0, es[..k]), name, es[k].listed);
  }

  // ---------------------------------------------------------------- freshness of an update

  predicate Checks(e: Event, name: string) {
    e.Check? && e.name == name
  }

  predicate Busy(s: State, name: string) {
    name in s.clones && !s.clones[name].phase.Idle?
  }

  lemma StepKeepsStart(s: State, e: Event, name: string)
    requires Enabled(s, e) && Busy(Step(s, e), name) && !Checks(e, name)
    ensures Busy(s, name)
    ensures Step(s, e).clones[name].source == s.clones[name].source
    ensures Step(s, e).clones[name].phase.start == s.clones[name].phase.start
  {
  }

  lemma StepGrows(s: State, e: Event, source: Source)
    requires Enabled(s, e) && source in s.remote
    ensures source in Step(s, e).remote && s.remote[source] <= Step(s, e).remote[source]
  {
  }

  /** The update that `name` is in began with the check at event `i`. */
  ghost predicate BeganAt(s0: State, es: seq<Event>, k: nat, name: string, i: nat)
    requires i <= k <= |es|
  {
    var before, now := After(s0, es[..i]), After(s0, es[..k]);
    && i < k && Checks(es[i], name) && Busy(now, name) && Knows(before, name) && Knows(now, name)
    && before.clones[name].source == now.clones[name].source
    && now.clones[name].phase.start == |before.remote[now.clones[name].source]| - 1
    && before.remote[now.clones[name].source] <= now.remote[now.clones[name].source]
  }

  lemma BeganByCheck(s0: State, es: seq<Event>, k: nat, name: string)
    requires 0 < k <= |es| && Checks(es[k - 1], name) && Enabled(After(s0, es[..k - 1]), es[k - 1])
    requires After(s0, es[..k]) == Step(After(s0, es[..k - 1]), es[k - 1])
    ensures BeganAt(s0, es, k, name, k - 1)
  {
  }

  lemma BeganEarlier(s0: State, es: seq<Event>, k: nat, name: string, i: nat)
    requires 0 < k <= |es| && !Checks(es[k - 1], name) && Enabled(After(s0, es[..k - 1]), es[k - 1])
    requires After(s0, es[..k]) == Step(After(s0, es[..k - 1]), es[k - 1]) && Busy(After(s0, es[..k]), name)
    requires i < k - 1 && BeganAt(s0, es, k - 1, name, i)
    ensures BeganAt(s0, es, k, name, i)
  {
    var s, e := After(s0, es[..k - 1]), es[k - 1];
    StepKeepsStart(s, e, name);
    StepGrows(s, e, s.clones[name].source);
  }

  lemma {:induction false} UpdateBegan(s0: State, es: seq<Event>, k: nat, name: string) returns (i: nat)
    requires ValidRun(s0, es) && k <= |es| && Busy(After(s0, es[..k]), name)
    ensures i < k && BeganAt(s0, es, k, name, i)
  {
    if k == 0 {
      assert false;
    }
    AfterNext(s0, es, k - 1);
    assert Enabled(After(s0, es[..k - 1]), es[k - 1]);
    if Checks(es[k - 1], name) {
      i := k - 1;
      BeganByCheck(s0, es, k, name);
    } else {
      StepKeepsStart(After(s0, es[..k - 1]), es[k - 1], name);
      i := UpdateBegan(s0, es, k - 1, name);
      BeganEarlier(s0, es, k, name, i);
    }
  }

  /** A successful update leaves the worktree at a commit at least as new as the remote head was when the
      update began, whether it fetched, skipped the fetch, or could not list the remote head. */
  lemma UpdateIsFresh(s0: State, es: seq<Event>, k: nat, name: string) returns (i: nat)
    requires ValidRun(s0, es) && k < |es| && es[k] == Sync(name, true)
    ensures i < k && Checks(es[i], name)
    ensures var before, after := After(s0, es[..i]), After(s0, es[..k + 1]);
            && name in after.clones
            && var source := after.clones[name].source;
               && source in before.remote && source in after.remote && before.remote[source] != []
               && AtLeast(after.remote[source], after.clones[name].worktree, |before.remote[source]| - 1)
  {
    AfterNext(s0, es, k);
    RunKeepsInvariant(s0, es, k);
    assert Enabled(After(s0, es[..k]), es[k]);
    i := UpdateBegan(s0, es, k, name);
  }

  /** While the remote branch only moves forward, the worktree is always an ancestor of the tracking ref. */
  lemma NeverDiverges(s0: State, es: seq<Event>, k: nat, name: string, objects: Objects)
    requires ValidRun(s0, es) && k <= |es| && name in After(s0, es[..k]).clones
    requires var s := After(s0, es[..k]);
             s.clones[name].source in s.remote ==> MovesForward(objects, s.remote[s.clones[name].source])
    ensures var c := After(s0, es[..k]).clones[name];
            Reachable(objects, c.tracking, c.worktree)
  {
    RunKeepsInvariant(s0, es, k);
    var s := After(s0, es[..k]);
    var c := s.clones[name];
    var log := s.remote[c.source];
    assert CloneOk(log, c);
    var i, j :| 0 <= i <= j < |log| && log[i] == c.worktree && log[j] == c.tracking;
    LaterReachesEarlier(objects, log, i, j);
  }

  /** So the sync at the end of an update is a fast-forward and succeeds, if no commit that the tracking ref
      reaches is missing; the worktree is then at the tracking ref. */
  method SyncNeverDiverges(s: State, name: string, objects: Objects, hardReset: bool,
                           ghost s0: State, ghost es: seq<Event>)
    returns (worktree: Result<Hash, SyncError>)
    requires ValidRun(s0, es) && s == After(s0, es) && Enabled(s, Sync(name, true))
    requires MovesForward(objects, s.remote[s.clones[name].source])
    requires forall h :: Reachable(objects, s.clones[name].tracking, h) ==> h in objects
    ensures worktree == Ok(s.clones[name].tracking)
    ensures Reachable(objects, s.clones[name].tracking, s.clones[name].worktree)
    ensures var r := Step(s, Sync(name, worktree.Ok?));
            name in r.clones && r.clones[name].worktree == worktree.value
  {
    assert es[..|es|] == es;
    NeverDiverges(s0, es, |es|, name, objects);
    worktree := SyncWithRemote(objects, s.clones[name].worktree, s.clones[name].tracking, hardReset);
  }

  // ---------------------------------------------------------------- two clones of one branch

  /** Two clones `a` and `b` of one branch, both idle, in a state that is otherwise fine. */
  ghost predicate Shared(s: State, a: string, b: string) {
    && a != b && Knows(s, a) && Knows(s, b) && s.clones[a].source == s.clones[b].source
    && s.clones[a].phase.Idle? && s.clones[b].phase.Idle?
    && s.clones[b].tracking in s.remote[s.clones[b].source]
    && (s.clones[a].source.Key() in s.cache ==> s.cache[s.clones[a].source.Key()].sha in s.remote[s.clones[a].source])
  }

  /** One clone per branch is needed: as soon as two clones share a branch, a push followed by an update of
      the one makes the other skip its fetch with a stale tracking ref. */
  lemma SharedSourceSkipsStale(s: State, a: string, b: string, sha: Hash)
    requires Shared(s, a, b) && sha !in s.remote[s.clones[a].source]
    ensures var es := [Push(s.clones[a].source, sha), Check(a, true), FetchSucceeds(a), RecordHead(a), Check(b, true)];
            var end := Next(Next(Next(Next(Next(s, es[0]), es[1]), es[2]), es[3]), es[4]);
            && Knows(end, b) && end.clones[b].phase.Ready?
            && end.clones[b].tracking != Head(end, end.clones[b].source)
  {
    var source := s.clones[a].source;
    var s1 := Next(s, Push(source, sha));
    assert Head(s1, source) == sha;
    var s2 := Next(s1, Check(a, true));
    assert s2.clones[a].phase == MustFetch(|s1.remote[source]| - 1, Some(sha));
    var s3 := Next(s2, FetchSucceeds(a));
    var s4 := Next(s3, RecordHead(a));
    assert s4.cache[source.Key()].sha == sha && s4.clones[b] == s.clones[b];
    var s5 := Next(s4, Check(b, true));
    assert s5.clones[b].phase.Ready?;
  }
}
