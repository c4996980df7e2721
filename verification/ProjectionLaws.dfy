/** Laws of the build history projection: rebuilding agrees with live updates, every summary depends on
    its own events only, and the history is exactly the recent completions. */
module ProjectionLaws {
  import opened Common
  import opened Projection

  // ---------------------------------------------------------------- locality

  /** The events of one build. */
  function EventsOf<R>(events: seq<Event<R>>, id: string): seq<Event<R>> {
    if events == [] then []
    else
      var before := EventsOf(events[..|events| - 1], id);
      if Last(events).buildID == id then before + [Last(events)] else before
  }

  /** The summary that a build's own events add up to. */
  function OwnSummary<R>(events: seq<Event<R>>): Option<Summary<R>> {
    if events == [] then None
    else
      var before, e := OwnSummary(events[..|events| - 1]), Last(events);
      Some(Updated(if before.Some? then before.value else NewSummary(e.at), e))
  }

  /** Interleaving events of other builds changes nothing in a build's summary. */
  lemma {:induction false} Locality<R>(events: seq<Event<R>>, maxSize: nat, id: string)
    requires id != "" && id != "unknown"
    ensures var builds := Live(events, maxSize).builds;
            if id in builds then OwnSummary(EventsOf(events, id)) == Some(builds[id])
            else EventsOf(events, id) == []
  {
    if events != [] {
      var before, e := events[..|events| - 1], Last(events);
      Locality(before, maxSize, id);
      var v := Live(before, maxSize);
      assert Live(events, maxSize) == Applied(v, e, maxSize);
      if e.buildID == id {
        OwnNext(EventsOf(before, id), e);
      }
    }
  }

  lemma OwnNext<R>(own: seq<Event<R>>, e: Event<R>)
    ensures OwnSummary(own + [e]) ==
            Some(Updated(if OwnSummary(own).Some? then OwnSummary(own).value else NewSummary(e.at), e))
  {
    assert (own + [e])[..|own|] == own;
  }

  lemma {:induction false} OwnEventsKnown<R>(events: seq<Event<R>>, maxSize: nat, id: string)
    ensures id in Live(events, maxSize).builds <==> id != "" && id != "unknown" && EventsOf(events, id) != []
  {
    if events != [] {
      OwnEventsKnown(events[..|events| - 1], maxSize, id);
    }
  }

  /** So the summaries do not depend on how the events of different builds are interleaved. */
  lemma SameOwnEvents<R>(events: seq<Event<R>>, others: seq<Event<R>>, maxSize: nat)
    requires forall id :: EventsOf(events, id) == EventsOf(others, id)
    ensures Live(events, maxSize).builds == Live(others, maxSize).builds
  {
    var a, b := Live(events, maxSize).builds, Live(others, maxSize).builds;
    forall id ensures (id in a <==> id in b) && (id in a ==> a[id] == b[id]) {
      OwnEventsKnown(events, maxSize, id);
      OwnEventsKnown(others, maxSize, id);
      if id in a {
        Locality(events, maxSize, id);
        Locality(others, maxSize, id);
      }
    }
  }

  function ClonedRepos<R>(events: seq<Event<R>>): nat {
    if events == [] then 0
    else ClonedRepos(events[..|events| - 1]) + if Last(events).kind.RepositoryCloned? then 1 else 0
  }

  function DiscoveredFiles<R>(events: seq<Event<R>>): int {
    if events == [] then 0
    else DiscoveredFiles(events[..|events| - 1]) +
         match Last(events).kind
         case DocumentsDiscovered(count) => if count.Some? then count.value else 0
         case _ => 0
  }

  /** Repository and file counts are exact sums over the build's events. */
  lemma {:induction false} CountsAreSums<R>(events: seq<Event<R>>)
    requires events != []
    ensures OwnSummary(events).value.repoCount == ClonedRepos(events)
    ensures OwnSummary(events).value.fileCount == DiscoveredFiles(events)
  {
    var before := events[..|events| - 1];
    if before != [] {
      CountsAreSums(before);
    }
  }

  // ---------------------------------------------------------------- history shape

  ghost predicate Shape<R>(v: View<R>, maxSize: nat) {
    && Distinct(v.history) && |v.history| <= maxSize
    && forall id :: id in v.history ==> id in v.builds && v.builds[id].completedAt.Some?
  }

  lemma StepShape<R>(v: View<R>, e: Event<R>, maxSize: nat)
    requires Shape(v, maxSize)
    ensures Shape(Applied(v, e, maxSize), maxSize)
  {
    var v' := Applied(v, e, maxSize);
    forall id | id in v'.history ensures id in v'.builds && v'.builds[id].completedAt.Some? {
      assert id in v.history || id == e.buildID;
    }
  }

  /** The history never names a build twice, never exceeds its bound, and names only completed builds. */
  lemma {:induction false} HistoryShape<R>(events: seq<Event<R>>, maxSize: nat)
    ensures Shape(Live(events, maxSize), maxSize)
  {
    if events != [] {
      HistoryShape(events[..|events| - 1], maxSize);
      StepShape(Live(events[..|events| - 1], maxSize), Last(events), maxSize);
    }
  }

  /** The builds in the order in which their completions entered the history, newest first. */
  function Entered<R>(events: seq<Event<R>>, maxSize: nat): seq<string> {
    if events == [] then []
    else
      var before, e := events[..|events| - 1], Last(events);
      if e.Terminates() && e.buildID !in Live(before, maxSize).history
      then [e.buildID] + Entered(before, maxSize)
      else Entered(before, maxSize)
  }

  /** The history is the newest `maxSize` completions that entered it, no more and no fewer: a completed
      build is missing only if that many newer ones pushed it out. */
  lemma {:induction false} HistoryIsRecent<R>(events: seq<Event<R>>, maxSize: nat)
    requires maxSize > 0
    ensures Live(events, maxSize).history == Take(Entered(events, maxSize), maxSize)
  {
    if events != [] {
      var before, e := events[..|events| - 1], Last(events);
      HistoryIsRecent(before, maxSize);
      TakeCons(e.buildID, Entered(before, maxSize), maxSize);
    }
  }

  lemma TakeCons(x: string, s: seq<string>, n: nat)
    requires n > 0
    ensures Take([x] + Take(s, n), n) == Take([x] + s, n)
  {
    if |s| > n {
      assert ([x] + s[..n])[..n] == ([x] + s)[..n];
    }
  }

  /** The IDs of the terminal events, newest first. */
  function Completions<R>(events: seq<Event<R>>): seq<string> {
    if events == [] then []
    else
      var before, e := events[..|events| - 1], Last(events);
      if e.Terminates() then [e.buildID] + Completions(before) else Completions(before)
  }

  /** When no build terminates twice, the history is the newest terminal events. */
  lemma {:induction false} EnteredAreCompletions<R>(events: seq<Event<R>>, maxSize: nat)
    requires maxSize > 0 && Distinct(Completions(events))
    ensures Entered(events, maxSize) == Completions(events)
  {
    if events != [] {
      var before, e := events[..|events| - 1], Last(events);
      if e.Terminates() {
        var all, rest := Completions(events), Completions(before);
        assert all == [e.buildID] + rest;
        assert forall i :: 0 <= i < |rest| ==> all[i + 1] == rest[i];
        assert forall i :: 0 < i < |all| ==> all[i] != all[0];
        assert e.buildID !in rest;
      }
      EnteredAreCompletions(before, maxSize);
      HistoryIsRecent(before, maxSize);
    }
  }

  // ---------------------------------------------------------------- sorting

  ghost predicate NewestFirst<R>(builds: map<string, Summary<R>>, ids: seq<string>) {
    forall i, j :: 0 <= i < j < |ids| ==> !Older(builds, ids[i], ids[j])
  }

  lemma {:induction false} PlacedKeepsOrder<R>(builds: map<string, Summary<R>>, ids: seq<string>, x: string)
    requires NewestFirst(builds, ids) && x in builds && forall id :: id in ids ==> id in builds
    ensures NewestFirst(builds, Placed(builds, ids, x))
    ensures multiset(Placed(builds, ids, x)) == multiset(ids) + multiset{x}
    ensures forall id :: id in Placed(builds, ids, x) ==> id == x || id in ids
  {
    PlacedElements(builds, ids, x);
    if ids != [] && Older(builds, Last(ids), x) {
      var init, placed := ids[..|ids| - 1], Placed(builds, ids[..|ids| - 1], x);
      PlacedKeepsOrder(builds, init, x);
      forall i | 0 <= i < |placed| ensures !Older(builds, placed[i], Last(ids)) {
        assert placed[i] in placed;
        if placed[i] in init {
          var k :| 0 <= k < |init| && init[k] == placed[i];
        }
      }
    }
  }

  lemma {:induction false} SortPermutes<R>(builds: map<string, Summary<R>>, ids: seq<string>)
    ensures multiset(SortedByStart(builds, ids)) == multiset(ids)
  {
    if ids != [] {
      var init := ids[..|ids| - 1];
      SortPermutes(builds, init);
      PlacedElements(builds, SortedByStart(builds, init), Last(ids));
      assert ids == init + [Last(ids)];
    }
  }

  lemma SortKeepsIds<R>(builds: map<string, Summary<R>>, ids: seq<string>)
    ensures forall id :: id in SortedByStart(builds, ids) ==> id in ids
  {
    SortPermutes(builds, ids);
    forall id | id in SortedByStart(builds, ids) ensures id in ids {
      InMultiset(SortedByStart(builds, ids), id);
      InMultiset(ids, id);
    }
  }

  lemma {:induction false} SortOrders<R>(builds: map<string, Summary<R>>, ids: seq<string>)
    requires forall id :: id in ids ==> id in builds
    ensures NewestFirst(builds, SortedByStart(builds, ids))
  {
    if ids != [] {
      var init := ids[..|ids| - 1];
      SortOrders(builds, init);
      SortKeepsIds(builds, init);
      PlacedKeepsOrder(builds, SortedByStart(builds, init), Last(ids));
    }
  }

  /** The sort returns the same builds, newest first. */
  lemma SortSorts<R>(builds: map<string, Summary<R>>, ids: seq<string>)
    requires forall id :: id in ids ==> id in builds
    ensures NewestFirst(builds, SortedByStart(builds, ids))
    ensures multiset(SortedByStart(builds, ids)) == multiset(ids)
    ensures forall id :: id in SortedByStart(builds, ids) ==> id in ids
  {
    SortOrders(builds, ids);
    SortPermutes(builds, ids);
    SortKeepsIds(builds, ids);
  }

  /** Being stable, the sort changes nothing exactly if the list is in order already. */
  lemma {:induction false} SortedStays<R>(builds: map<string, Summary<R>>, ids: seq<string>)
    requires NewestFirst(builds, ids)
    ensures SortedByStart(builds, ids) == ids
  {
    if ids != [] {
      SortedStays(builds, ids[..|ids| - 1]);
    }
  }

  lemma NothingToTrim<R>(events: seq<Event<R>>, maxSize: nat)
    ensures var live := Live(events, maxSize);
            && Rebuilt(events, maxSize).history == SortedByStart(live.builds, live.history)
            && forall id :: id in live.history ==> id in live.builds
  {
    var live := Live(events, maxSize);
    HistoryShape(events, maxSize);
    SortSorts(live.builds, live.history);
    assert |SortedByStart(live.builds, live.history)| == |multiset(live.history)| == |live.history|;
  }

  /** Rebuilding gives the same summaries as the live projection and the same history up to order, sorted
      by start; the two histories are identical exactly if the live one is in that order. */
  lemma RebuildAgrees<R>(events: seq<Event<R>>, maxSize: nat)
    ensures var live, rebuilt := Live(events, maxSize), Rebuilt(events, maxSize);
            && rebuilt.builds == live.builds
            && multiset(rebuilt.history) == multiset(live.history)
            && NewestFirst(live.builds, rebuilt.history)
            && (rebuilt.history == live.history <==> NewestFirst(live.builds, live.history))
  {
    var live := Live(events, maxSize);
    NothingToTrim(events, maxSize);
    SortSorts(live.builds, live.history);
    if NewestFirst(live.builds, live.history) {
      SortedStays(live.builds, live.history);
    }
  }

  // ---------------------------------------------------------------- builds one after the other

  function LastStart<R>(events: seq<Event<R>>): Option<Event<R>> {
    if events == [] then None
    else if Last(events).Starts() then Some(Last(events))
    else LastStart(events[..|events| - 1])
  }

  function Started<R>(events: seq<Event<R>>): seq<string> {
    if events == [] then []
    else if Last(events).Starts() then Started(events[..|events| - 1]) + [Last(events).buildID]
    else Started(events[..|events| - 1])
  }

  /** Timestamps never go backwards, no build starts twice or terminates twice, and a build terminates
      only while it is the one started last. */
  predicate Sequential<R>(events: seq<Event<R>>) {
    events == [] ||
    var before, e := events[..|events| - 1], Last(events);
    Sequential(before) && InSequence(before, e)
  }

  predicate InSequence<R>(before: seq<Event<R>>, e: Event<R>) {
    && (before != [] ==> Last(before).at <= e.at)
    && (e.Starts() ==> e.buildID !in Started(before))
    && (e.Terminates() ==> e.buildID !in Completions(before)
                           && LastStart(before).Some? && LastStart(before).value.buildID == e.buildID)
  }

  lemma SequentialNext<R>(before: seq<Event<R>>, e: Event<R>)
    ensures var events := before + [e];
            && (Sequential(events) <==> Sequential(before) && InSequence(before, e))
            && Started(events) == (if e.Starts() then Started(before) + [e.buildID] else Started(before))
            && LastStart(events) == if e.Starts() then Some(e) else LastStart(before)
  {
    assert (before + [e])[..|before|] == before;
  }

  /** In a sequential log: the history is in order, its builds started no later than the last start, all
      have started, and the last started build carries the time of its start event. */
  ghost predicate InOrder<R>(events: seq<Event<R>>, v: View<R>) {
    var last := LastStart(events);
    && NewestFirst(v.builds, v.history)
    && (forall id :: id in v.history ==> id in Started(events) && id in v.builds && id in Completions(events))
    && (last.None? ==> v.history == [])
    && (last.Some? ==>
          && last.value.buildID in v.builds && v.builds[last.value.buildID].startedAt == last.value.at
          && last.value.at <= Last(events).at
          && forall id :: id in v.history ==> v.builds[id].startedAt <= last.value.at)
  }

  lemma {:induction false} LastStartStarted<R>(events: seq<Event<R>>)
    ensures LastStart(events).Some? ==> events != [] && LastStart(events).value.buildID in Started(events)
  {
    if events != [] && !Last(events).Starts() {
      LastStartStarted(events[..|events| - 1]);
    }
  }

  lemma StartStep<R>(before: seq<Event<R>>, events: seq<Event<R>>, v: View<R>, e: Event<R>, maxSize: nat)
    requires events == before + [e] && Sequential(events) && InOrder(before, v) && e.Starts()
    ensures InOrder(events, Applied(v, e, maxSize))
  {
    assert events[..|events| - 1] == before && Last(events) == e;
    var v' := Applied(v, e, maxSize);
    LastStartStarted(before);
    assert e.buildID !in v.history && v'.history == v.history;
    assert forall id :: id in v.history ==> v'.builds[id] == v.builds[id];
  }

  lemma TerminalStep<R>(before: seq<Event<R>>, events: seq<Event<R>>, v: View<R>, e: Event<R>, maxSize: nat)
    requires events == before + [e] && Sequential(events) && InOrder(before, v) && e.Terminates()
    ensures InOrder(events, Applied(v, e, maxSize))
  {
    assert events[..|events| - 1] == before && Last(events) == e;
    var v' := Applied(v, e, maxSize);
    LastStartStarted(before);
    assert e.buildID !in v.history && v'.history == Take([e.buildID] + v.history, maxSize);
    assert forall id :: id in v'.history ==> id == e.buildID || id in v.history;
    assert SameStarts(v, v');
    NewestInFront(v, v', e.buildID, maxSize);
  }

  lemma NewestInFront<R>(v: View<R>, v': View<R>, id: string, maxSize: nat)
    requires NewestFirst(v.builds, v.history) && SameStarts(v, v') && id in v.builds
    requires forall i :: i in v.history ==> i in v.builds && v.builds[i].startedAt <= v.builds[id].startedAt
    requires v'.history == Take([id] + v.history, maxSize)
    ensures NewestFirst(v'.builds, v'.history)
  {
    forall i, j | 0 <= i < j < |v'.history| ensures !Older(v'.builds, v'.history[i], v'.history[j]) {
      assert v'.history[j] == v.history[j - 1];
      if i > 0 {
        assert !Older(v.builds, v.history[i - 1], v.history[j - 1]);
      }
    }
  }

  ghost predicate SameStarts<R>(v: View<R>, v': View<R>) {
    forall id :: id in v.builds ==> id in v'.builds && v'.builds[id].startedAt == v.builds[id].startedAt
  }

  lemma OtherStep<R>(before: seq<Event<R>>, events: seq<Event<R>>, v: View<R>, e: Event<R>, maxSize: nat)
    requires events == before + [e] && Sequential(events) && InOrder(before, v)
    requires !e.Starts() && !e.Terminates()
    ensures InOrder(events, Applied(v, e, maxSize))
  {
    assert events[..|events| - 1] == before && Last(events) == e;
    LastStartStarted(before);
    assert SameStarts(v, Applied(v, e, maxSize));
  }

  lemma {:induction false} SequentialInOrder<R>(events: seq<Event<R>>, maxSize: nat)
    requires Sequential(events) && maxSize > 0
    ensures InOrder(events, Live(events, maxSize))
  {
    if events != [] {
      var before := events[..|events| - 1];
      SequentialInOrder(before, maxSize);
      assert events == before + [Last(events)];
      var v, e := Live(before, maxSize), Last(events);
      if e.Starts() {
        StartStep(before, events, v, e, maxSize);
      } else if e.Terminates() {
        TerminalStep(before, events, v, e, maxSize);
      } else {
        OtherStep(before, events, v, e, maxSize);
      }
    }
  }

  /** If builds do not overlap, rebuilding from the same events shows exactly what was shown live. */
  lemma SequentialRebuildIdentical<R>(events: seq<Event<R>>, maxSize: nat)
    requires Sequential(events) && maxSize > 0
    ensures Rebuilt(events, maxSize) == Live(events, maxSize)
  {
    SequentialInOrder(events, maxSize);
    RebuildAgrees(events, maxSize);
  }

  /** Two builds that overlap: the one that starts first ends last. */
  function Overlap(startA: Time, startB: Time, endB: Time, endA: Time): seq<Event<int>> {
    [Event("a", startA, BuildStarted(None)), Event("b", startB, BuildStarted(None)),
     Event("b", endB, BuildFailed(None)), Event("a", endA, BuildFailed(None))]
  }

  /** Overlapping builds can make the two histories differ: live by completion, rebuilt by start. */
  lemma OverlapReorders(maxSize: nat)
    requires maxSize >= 2
    ensures var events := Overlap(1, 2, 3, 4);
            Live(events, maxSize).history == ["a", "b"] && Rebuilt(events, maxSize).history == ["b", "a"]
  {
    var live := OverlapLive(1, 2, 3, 4, maxSize);
    OverlapSorted(live.builds);
  }

  lemma OverlapLive(startA: Time, startB: Time, endB: Time, endA: Time, maxSize: nat) returns (live: View<int>)
    requires maxSize >= 2
    ensures live == Live(Overlap(startA, startB, endB, endA), maxSize) && live.history == ["a", "b"]
    ensures "a" in live.builds && "b" in live.builds
    ensures live.builds["a"].startedAt == startA && live.builds["b"].startedAt == startB
  {
    var events := Overlap(startA, startB, endB, endA);
    var started := BothStarted(startA, startB, endB, endA, maxSize);
    LiveUpTo(events, 2, maxSize);
    LiveUpTo(events, 3, maxSize);
    assert events[..4] == events;
    live := Live(events, maxSize);
  }

  lemma BothStarted(startA: Time, startB: Time, endB: Time, endA: Time, maxSize: nat) returns (live: View<int>)
    ensures live == Live(Overlap(startA, startB, endB, endA)[..2], maxSize) && live.history == []
    ensures "a" in live.builds && "b" in live.builds
    ensures live.builds["a"].startedAt == startA && live.builds["b"].startedAt == startB
  {
    var events := Overlap(startA, startB, endB, endA);
    LiveUpTo(events, 0, maxSize);
    LiveUpTo(events, 1, maxSize);
    assert events[..0] == [];
    live := Live(events[..2], maxSize);
  }

  lemma LiveUpTo<R>(events: seq<Event<R>>, k: nat, maxSize: nat)
    requires k < |events|
    ensures Live(events[..k + 1], maxSize) == Applied(Live(events[..k], maxSize), events[k], maxSize)
  {
    assert events[..k + 1][..k] == events[..k];
  }

  lemma OverlapSorted<R>(builds: map<string, Summary<R>>)
    requires "a" in builds && "b" in builds && builds["a"].startedAt < builds["b"].startedAt
    ensures SortedByStart(builds, ["a", "b"]) == ["b", "a"]
  {
    var one := ["a"];
    assert one[..0] == [] && ["a", "b"][..1] == one;
    assert SortedByStart(builds, one) == Placed(builds, [], "a") == one;
    assert Placed(builds, one, "b") == Placed(builds, [], "b") + one;
  }
}
