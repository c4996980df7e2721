/** A daemon that restarts rebuilds its history from the log and goes on applying events. */
module Restarts {
  import opened Common
  import opened Projection
  import opened ProjectionLaws
  import opened EventLog

  /** Events applied one by one to a view. */
  function Continued<R>(v: View<R>, events: seq<Event<R>>, maxSize: nat): View<R> {
    if events == [] then v else Applied(Continued(v, events[..|events| - 1], maxSize), Last(events), maxSize)
  }

  /** What a daemon shows that was restarted after the first of these emissions, once it has emitted the
      others: a rebuild from the stored events, followed by live ones. */
  function Restarted<R>(before: seq<Emission<R>>, after: seq<Emission<R>>, maxSize: nat): View<R> {
    Continued(Rebuilt(Stored(before), maxSize), Emitted(after), maxSize)
  }

  /** What it would show without the restart. */
  function Uninterrupted<R>(before: seq<Emission<R>>, after: seq<Emission<R>>, maxSize: nat): View<R> {
    Continued(Live(Emitted(before), maxSize), Emitted(after), maxSize)
  }

  lemma {:induction false} LiveContinued<R>(before: seq<Event<R>>, after: seq<Event<R>>, maxSize: nat)
    ensures Live(before + after, maxSize) == Continued(Live(before, maxSize), after, maxSize)
    decreases |after|
  {
    if after == [] {
      assert before + after == before;
    } else {
      var init, last, all := after[..|after| - 1], Last(after), before + after;
      LiveContinued(before, init, maxSize);
      assert all == (before + init) + [last];
      EventLog.LiveNext(before + init, last, maxSize);
    }
  }

  lemma {:induction false} EmittedConcat<R>(before: seq<Emission<R>>, after: seq<Emission<R>>)
    ensures Emitted(before + after) == Emitted(before) + Emitted(after)
    decreases |after|
  {
    if after == [] {
      assert before + after == before;
    } else {
      var init, last, all := after[..|after| - 1], Last(after), before + after;
      EmittedConcat(before, init);
      assert all == (before + init) + [last];
      StoredNext(before + init, last);
    }
  }

  lemma UninterruptedIsLive<R>(before: seq<Emission<R>>, after: seq<Emission<R>>, maxSize: nat)
    ensures Uninterrupted(before, after, maxSize) == Live(Emitted(before + after), maxSize)
  {
    EmittedConcat(before, after);
    LiveContinued(Emitted(before), Emitted(after), maxSize);
  }

  // ---------------------------------------------------------------- what survives a restart

  /** A summary without its times. */
  function Timeless<R>(s: Summary<R>): Summary<R> {
    s.(startedAt := 0, completedAt := if s.completedAt.Some? then Some(0) else None, duration := 0)
  }

  /** The same builds, with summaries that differ in their times at most. */
  ghost predicate Alike<R>(a: map<string, Summary<R>>, b: map<string, Summary<R>>) {
    a.Keys == b.Keys && forall id :: id in a ==> Timeless(a[id]) == Timeless(b[id])
  }

  /** The same event, at another time perhaps. */
  ghost predicate SameButTime<R>(e: Event<R>, f: Event<R>) {
    e.buildID == f.buildID && e.kind == f.kind
  }

  lemma UpdatedAlike<R>(s: Summary<R>, t: Summary<R>, e: Event<R>, f: Event<R>)
    requires Timeless(s) == Timeless(t) && SameButTime(e, f)
    ensures Timeless(Updated(s, e)) == Timeless(Updated(t, f))
  {
    match e.kind
    case BuildCompleted(_) =>
    case BuildFailed(_) =>
    case _ =>
  }

  lemma StepAlike<R>(v: View<R>, w: View<R>, e: Event<R>, f: Event<R>, maxSize: nat)
    requires Alike(v.builds, w.builds) && SameButTime(e, f)
    ensures Alike(Applied(v, e, maxSize).builds, Applied(w, f, maxSize).builds)
  {
    var id := e.buildID;
    UpdatedAlike(if id in v.builds then v.builds[id] else NewSummary(e.at),
                 if id in w.builds then w.builds[id] else NewSummary(f.at), e, f);
  }

  /** Applied live or read back: the summaries differ in times only, and the histories not at all. */
  lemma {:induction false} StoredAlike<R>(log: seq<Emission<R>>, maxSize: nat)
    ensures var live, read := Live(Emitted(log), maxSize), Live(Stored(log), maxSize);
            Alike(live.builds, read.builds) && live.history == read.history
    ensures Completions(Stored(log)) == Completions(Emitted(log))
  {
    if log != [] {
      var init, last := log[..|log| - 1], Last(log);
      StoredAlike(init, maxSize);
      LastStored(log, init, last);
      StepAlike(Live(Emitted(init), maxSize), Live(Stored(init), maxSize), last.event, StoredEvent(last), maxSize);
      EventLog.LiveNext(Emitted(init), last.event, maxSize);
      EventLog.LiveNext(Stored(init), StoredEvent(last), maxSize);
      CompletionsNext(Emitted(init), last.event);
      CompletionsNext(Stored(init), StoredEvent(last));
    }
  }

  lemma LastStored<R>(log: seq<Emission<R>>, init: seq<Emission<R>>, last: Emission<R>)
    requires log != [] && init == log[..|log| - 1] && last == Last(log)
    ensures Stored(log) == Stored(init) + [StoredEvent(last)] && Emitted(log) == Emitted(init) + [last.event]
  {
  }

  lemma CompletionsNext<R>(events: seq<Event<R>>, e: Event<R>)
    ensures Completions(events + [e]) ==
            if e.Terminates() then [e.buildID] + Completions(events) else Completions(events)
  {
    assert (events + [e])[..|events|] == events;
  }

  lemma {:induction false} ContinuedAlike<R>(v: View<R>, w: View<R>, events: seq<Event<R>>, maxSize: nat)
    requires Alike(v.builds, w.builds)
    ensures Alike(Continued(v, events, maxSize).builds, Continued(w, events, maxSize).builds)
  {
    if events != [] {
      var init, last := events[..|events| - 1], Last(events);
      ContinuedAlike(v, w, init, maxSize);
      StepAlike(Continued(v, init, maxSize), Continued(w, init, maxSize), last, last, maxSize);
    }
  }

  /** Everything in a summary but its start, completion and duration survives a restart, and no build
      appears or disappears. */
  lemma RestartKeepsContents<R>(before: seq<Emission<R>>, after: seq<Emission<R>>, maxSize: nat)
    ensures Alike(Restarted(before, after, maxSize).builds, Uninterrupted(before, after, maxSize).builds)
  {
    StoredAlike(before, maxSize);
    ContinuedAlike(Rebuilt(Stored(before), maxSize), Live(Emitted(before), maxSize), Emitted(after), maxSize);
  }

  /** The same if the events of different builds were applied in another order than they were stored. */
  lemma InterleavingKeepsContents<R>(applied: seq<Event<R>>, log: seq<Emission<R>>, maxSize: nat)
    requires forall id :: EventsOf(applied, id) == EventsOf(Emitted(log), id)
    ensures Alike(Live(applied, maxSize).builds, Rebuilt(Stored(log), maxSize).builds)
  {
    SameOwnEvents(applied, Emitted(log), maxSize);
    StoredAlike(log, maxSize);
  }

  // ---------------------------------------------------------------- how far times move

  /** A time is read back up to a second earlier, or later by the time that the append took. */
  predicate NearTime(live: Time, read: Time, latency: Time) {
    live - SECOND < read <= live + latency
  }

  predicate NearSummary<R>(s: Summary<R>, t: Summary<R>, latency: Time) {
    && NearTime(s.startedAt, t.startedAt, latency)
    && (s.completedAt.Some? <==> t.completedAt.Some?)
    && (s.completedAt.Some? ==> NearTime(s.completedAt.value, t.completedAt.value, latency))
    && -SECOND - latency < t.duration - s.duration < SECOND + latency
  }

  ghost predicate Near<R>(a: map<string, Summary<R>>, b: map<string, Summary<R>>, latency: Time) {
    a.Keys == b.Keys && forall id :: id in a ==> NearSummary(a[id], b[id], latency)
  }

  /** Every event was appended no earlier than its own time, and at most `latency` later. */
  ghost predicate AppendedWithin<R>(log: seq<Emission<R>>, latency: Time) {
    forall e :: e in log ==> e.event.at <= e.appended <= e.event.at + latency
  }

  lemma UpdatedNear<R>(s: Summary<R>, t: Summary<R>, e: Event<R>, f: Event<R>, latency: Time)
    requires latency >= 0 && NearSummary(s, t, latency) && SameButTime(e, f) && NearTime(e.at, f.at, latency)
    ensures NearSummary(Updated(s, e), Updated(t, f), latency)
  {
  }

  lemma StepNear<R>(v: View<R>, w: View<R>, e: Event<R>, f: Event<R>, maxSize: nat, latency: Time)
    requires latency >= 0 && Near(v.builds, w.builds, latency) && SameButTime(e, f) && NearTime(e.at, f.at, latency)
    ensures Near(Applied(v, e, maxSize).builds, Applied(w, f, maxSize).builds, latency)
  {
    var id := e.buildID;
    UpdatedNear(if id in v.builds then v.builds[id] else NewSummary(e.at),
                if id in w.builds then w.builds[id] else NewSummary(f.at), e, f, latency);
  }

  /** If every append is done within `latency`, a restart moves starts and completions back by less than a
      second or forth by no more than the latency, and changes durations by less than both together. */
  lemma {:induction false} RestartMovesTimes<R>(log: seq<Emission<R>>, maxSize: nat, latency: Time)
    requires latency >= 0 && AppendedWithin(log, latency)
    ensures Near(Live(Emitted(log), maxSize).builds, Rebuilt(Stored(log), maxSize).builds, latency)
  {
    if log != [] {
      var init, last := log[..|log| - 1], Last(log);
      assert forall e :: e in init ==> e in log;
      RestartMovesTimes(init, maxSize, latency);
      LastStored(log, init, last);
      EventLog.LiveNext(Emitted(init), last.event, maxSize);
      EventLog.LiveNext(Stored(init), StoredEvent(last), maxSize);
      assert last in log;
      StepNear(Live(Emitted(init), maxSize), Live(Stored(init), maxSize), last.event, StoredEvent(last),
               maxSize, latency);
    }
  }

  /** Times do move: a build that starts half a second past the full second. */
  lemma RestartRoundsTimes(log: seq<Emission<int>>, maxSize: nat)
    requires log == [Emission(Event("a", SECOND / 2, BuildStarted(None)), SECOND / 2)]
    ensures var live, read := Live(Emitted(log), maxSize).builds, Rebuilt(Stored(log), maxSize).builds;
            "a" in live && live["a"].startedAt == SECOND / 2 && "a" in read && read["a"].startedAt == 0
  {
    LastStored(log, [], log[0]);
    EventLog.LiveNext([], log[0].event, maxSize);
    EventLog.LiveNext([], StoredEvent(log[0]), maxSize);
  }

  // ---------------------------------------------------------------- histories after a restart

  lemma {:induction false} CompletionsConcat<R>(before: seq<Event<R>>, after: seq<Event<R>>)
    ensures Completions(before + after) == Completions(after) + Completions(before)
    decreases |after|
  {
    if after == [] {
      assert before + after == before;
    } else {
      var init, all := after[..|after| - 1], before + after;
      CompletionsConcat(before, init);
      assert all[..|all| - 1] == before + init && Last(all) == Last(after);
    }
  }

  /** New completions come in front of the history that was there. */
  lemma {:induction false} HistoryContinued<R>(v: View<R>, events: seq<Event<R>>, maxSize: nat)
    requires maxSize > 0 && |v.history| <= maxSize && Distinct(Completions(events) + v.history)
    ensures Continued(v, events, maxSize).history == Take(Completions(events) + v.history, maxSize)
  {
    if events == [] {
      assert Completions(events) + v.history == v.history;
    } else {
      var init, e := events[..|events| - 1], Last(events);
      if e.Terminates() {
        assert Completions(events) + v.history == [e.buildID] + (Completions(init) + v.history);
        DistinctTail(e.buildID, Completions(init) + v.history);
        HistoryContinued(v, init, maxSize);
        TakeCons(e.buildID, Completions(init) + v.history, maxSize);
      } else {
        HistoryContinued(v, init, maxSize);
      }
    }
  }

  lemma DistinctTail(x: string, s: seq<string>)
    requires Distinct([x] + s)
    ensures Distinct(s) && x !in s
  {
    assert forall i :: 0 <= i < |s| ==> ([x] + s)[i + 1] == s[i];
    assert ([x] + s)[0] == x;
  }

  /** How many entries of the history before the restart are still shown after it. */
  function Survivors(history: seq<string>, newer: nat, maxSize: nat): (m: nat)
    ensures m <= |history|
  {
    if newer >= maxSize then 0 else if |history| <= maxSize - newer then |history| else maxSize - newer
  }

  lemma TakeIff(newer: seq<string>, h: seq<string>, r: seq<string>, n: nat)
    requires |h| == |r|
    ensures var m := Survivors(h, |newer|, n);
            Take(newer + r, n) == Take(newer + h, n) <==> r[..m] == h[..m]
  {
    var m := Survivors(h, |newer|, n);
    if |newer| < n {
      TakeFront(newer, h, n);
      TakeFront(newer, r, n);
      SameBehind(newer, h[..m], r[..m]);
    } else {
      assert (newer + r)[..n] == newer[..n] == (newer + h)[..n];
      assert |newer| == n ==> newer[..n] == newer;
      assert |h| == 0 ==> newer + r == newer + h;
    }
  }

  lemma TakeFront(newer: seq<string>, h: seq<string>, n: nat)
    requires |newer| < n
    ensures Take(newer + h, n) == newer + h[..Survivors(h, |newer|, n)]
  {
  }

  lemma SameBehind(a: seq<string>, s: seq<string>, t: seq<string>)
    ensures a + s == a + t <==> s == t
  {
    if a + s == a + t {
      assert s == (a + s)[|a|..] && t == (a + t)[|a|..];
    }
  }

  // ---------------------------------------------------------------- what the sort leaves in front

  /** None of the first `m` entries started before a later entry. */
  ghost predicate FrontInOrder<R>(builds: map<string, Summary<R>>, ids: seq<string>, m: nat) {
    forall i, j :: 0 <= i < m && i < j < |ids| ==> !Older(builds, ids[i], ids[j])
  }

  lemma {:induction false} PlacedBehind<R>(builds: map<string, Summary<R>>, front: seq<string>, rest: seq<string>,
                                           x: string)
    requires front != [] ==> !Older(builds, Last(front), x)
    ensures Placed(builds, front + rest, x) == front + Placed(builds, rest, x)
    decreases |rest|
  {
    var all := front + rest;
    if rest == [] {
      assert all == front;
      assert Placed(builds, front, x) == front + [x];
    } else {
      var init := rest[..|rest| - 1];
      PlacedBehind(builds, front, init, x);
      assert all[..|all| - 1] == front + init && Last(all) == Last(rest);
      assert front + (init + [Last(rest)]) == all;
      assert rest == init + [Last(rest)];
    }
  }

  lemma {:induction false} SortedBehind<R>(builds: map<string, Summary<R>>, front: seq<string>, rest: seq<string>)
    requires FrontInOrder(builds, front + rest, |front|)
    ensures SortedByStart(builds, front + rest) == front + SortedByStart(builds, rest)
    decreases |rest|
  {
    if rest == [] {
      assert front + rest == front;
      assert NewestFirst(builds, front);
      SortedStays(builds, front);
    } else {
      var init, x, all := rest[..|rest| - 1], Last(rest), front + rest;
      assert all[..|all| - 1] == front + init && Last(all) == x;
      assert rest == init + [x];
      ShorterInOrder(builds, front, init, x);
      SortedBehind(builds, front, init);
      PlacedBehind(builds, front, SortedByStart(builds, init), x);
    }
  }

  lemma ShorterInOrder<R>(builds: map<string, Summary<R>>, front: seq<string>, init: seq<string>, x: string)
    requires FrontInOrder(builds, front + (init + [x]), |front|)
    ensures FrontInOrder(builds, front + init, |front|)
    ensures front != [] ==> !Older(builds, Last(front), x)
  {
    var all := front + (init + [x]);
    assert forall i :: 0 <= i < |front + init| ==> (front + init)[i] == all[i];
    assert front != [] ==> all[|front| - 1] == Last(front) && all[|all| - 1] == x;
  }

  /** The sort leaves the first `m` entries where they are if and only if none of them started before a
      later entry. */
  lemma FrontStaysIff<R>(builds: map<string, Summary<R>>, ids: seq<string>, m: nat)
    requires m <= |ids| && Distinct(ids) && forall id :: id in ids ==> id in builds
    ensures |SortedByStart(builds, ids)| == |ids|
    ensures SortedByStart(builds, ids)[..m] == ids[..m] <==> FrontInOrder(builds, ids, m)
  {
    var sorted := SortedByStart(builds, ids);
    SortSorts(builds, ids);
    assert |sorted| == |multiset(sorted)| == |multiset(ids)| == |ids|;
    if FrontInOrder(builds, ids, m) {
      FrontStays(builds, ids, m);
    }
    if sorted[..m] == ids[..m] {
      FrontWasInOrder(builds, ids, sorted, m);
    }
  }

  lemma FrontStays<R>(builds: map<string, Summary<R>>, ids: seq<string>, m: nat)
    requires m <= |ids| && FrontInOrder(builds, ids, m)
    ensures ids[..m] <= SortedByStart(builds, ids)
  {
    assert ids == ids[..m] + ids[m..];
    SortedBehind(builds, ids[..m], ids[m..]);
  }

  lemma FrontWasInOrder<R>(builds: map<string, Summary<R>>, ids: seq<string>, sorted: seq<string>, m: nat)
    requires Distinct(ids) && multiset(sorted) == multiset(ids) && |sorted| == |ids| && NewestFirst(builds, sorted)
    requires m <= |ids| && sorted[..m] == ids[..m]
    ensures FrontInOrder(builds, ids, m)
  {
    forall i, j | 0 <= i < m && i < j < |ids| ensures !Older(builds, ids[i], ids[j]) {
      assert sorted[i] == sorted[..m][i] == ids[i];
      var k := LaterInSorted(ids, sorted, m, i, j);
      assert !Older(builds, sorted[i], sorted[k]);
    }
  }

  lemma LaterInSorted(ids: seq<string>, sorted: seq<string>, m: nat, i: nat, j: nat) returns (k: nat)
    requires Distinct(ids) && multiset(sorted) == multiset(ids) && |sorted| == |ids|
    requires i < m <= |ids| && i < j < |ids| && sorted[..m] == ids[..m]
    ensures i < k < |sorted| && sorted[k] == ids[j]
  {
    assert ids[j] in multiset(sorted);
    k := PositionOf(sorted, ids[j]);
    if k < m {
      assert sorted[k] == sorted[..m][k] == ids[k];
      assert k == j;
    }
  }

  // ---------------------------------------------------------------- when the history stays

  /** If no build terminates twice: a daemon restarted in the middle of a log shows the same history as
      without the restart, if and only if of the entries that are still shown, none had started in an
      earlier second than a later entry, by the time its start was stored. */
  lemma RestartIff<R>(before: seq<Emission<R>>, after: seq<Emission<R>>, maxSize: nat)
    requires maxSize > 0 && Distinct(Completions(Emitted(before + after)))
    ensures var read := Live(Stored(before), maxSize);
            Restarted(before, after, maxSize).history == Uninterrupted(before, after, maxSize).history <==>
            FrontInOrder(read.builds, read.history,
                         Survivors(read.history, |Completions(Emitted(after))|, maxSize))
  {
    var read, rebuilt := Live(Stored(before), maxSize), Rebuilt(Stored(before), maxSize);
    var live, newer := Live(Emitted(before), maxSize), Completions(Emitted(after));
    StoredAlike(before, maxSize);
    EmittedConcat(before, after);
    HistoryShape(Stored(before), maxSize);
    BothDistinct(Stored(before), Emitted(before), Emitted(after), maxSize);
    HistoryContinued(live, Emitted(after), maxSize);
    HistoryContinued(rebuilt, Emitted(after), maxSize);
    TakeIff(newer, read.history, rebuilt.history, maxSize);
    NothingToTrim(Stored(before), maxSize);
    FrontStaysIff(read.builds, read.history, Survivors(read.history, |newer|, maxSize));
  }

  lemma BothDistinct<R>(rows: seq<Event<R>>, before: seq<Event<R>>, after: seq<Event<R>>, maxSize: nat)
    requires maxSize > 0 && Distinct(Completions(before + after)) && Completions(rows) == Completions(before)
    ensures var read, rebuilt := Live(rows, maxSize), Rebuilt(rows, maxSize);
            && |rebuilt.history| == |read.history|
            && Distinct(Completions(after) + read.history) && Distinct(Completions(after) + rebuilt.history)
  {
    var read, rebuilt := Live(rows, maxSize), Rebuilt(rows, maxSize);
    var newer, older := Completions(after), Completions(rows);
    CompletionsConcat(before, after);
    DistinctParts(newer, older);
    EnteredAreCompletions(rows, maxSize);
    HistoryIsRecent(rows, maxSize);
    assert read.history == Take(older, maxSize);
    RebuildAgrees(rows, maxSize);
    DistinctTogether(newer, older, read.history, read.history);
    DistinctTogether(newer, older, read.history, rebuilt.history);
    assert |rebuilt.history| == |multiset(rebuilt.history)| == |read.history|;
  }

  lemma DistinctParts(a: seq<string>, b: seq<string>)
    requires Distinct(a + b)
    ensures Distinct(b)
  {
    assert forall i :: 0 <= i < |b| ==> (a + b)[|a| + i] == b[i];
  }

  lemma DistinctTogether(newer: seq<string>, older: seq<string>, h: seq<string>, r: seq<string>)
    requires Distinct(newer + older) && h <= older && multiset(r) == multiset(h)
    ensures Distinct(newer + r)
  {
    var s := newer + older;
    forall i, j | 0 <= i < j < |newer + r| ensures (newer + r)[i] != (newer + r)[j] {
      if j < |newer| {
        assert s[i] == newer[i] && s[j] == newer[j];
      } else if i < |newer| {
        assert r[j - |newer|] in multiset(h);
        var k := PositionOf(h, r[j - |newer|]);
        assert s[i] == newer[i] && s[|newer| + k] == older[k] == h[k];
      } else {
        var p, q := PairInPermutation(h, r, i - |newer|, j - |newer|);
        assert s[|newer| + p] == h[p] && s[|newer| + q] == h[q];
      }
    }
  }

  /** If builds do not overlap, restarts do not change the history, and a later rebuild gives it again. */
  lemma SequentialRestart<R>(before: seq<Emission<R>>, after: seq<Emission<R>>, maxSize: nat)
    requires maxSize > 0 && Sequential(Stored(before + after))
    ensures var history := Uninterrupted(before, after, maxSize).history;
            Restarted(before, after, maxSize).history == history == Rebuilt(Stored(before + after), maxSize).history
  {
    StoredConcat(before, after);
    SequentialPrefix(Stored(before), Stored(after));
    SequentialRebuildIdentical(Stored(before), maxSize);
    SequentialRebuildIdentical(Stored(before + after), maxSize);
    StoredAlike(before, maxSize);
    StoredAlike(before + after, maxSize);
    UninterruptedIsLive(before, after, maxSize);
    SameHistory(Rebuilt(Stored(before), maxSize), Live(Emitted(before), maxSize), Emitted(after), maxSize);
  }

  lemma {:induction false} SameHistory<R>(v: View<R>, w: View<R>, events: seq<Event<R>>, maxSize: nat)
    requires v.history == w.history
    ensures Continued(v, events, maxSize).history == Continued(w, events, maxSize).history
  {
    if events != [] {
      SameHistory(v, w, events[..|events| - 1], maxSize);
    }
  }

  lemma {:induction false} StoredConcat<R>(before: seq<Emission<R>>, after: seq<Emission<R>>)
    ensures Stored(before + after) == Stored(before) + Stored(after)
    decreases |after|
  {
    if after == [] {
      assert before + after == before;
    } else {
      var init, last, all := after[..|after| - 1], Last(after), before + after;
      StoredConcat(before, init);
      assert all == (before + init) + [last];
      StoredNext(before + init, last);
    }
  }

  /** Appends never go back in time. */
  ghost predicate InAppendOrder<R>(log: seq<Emission<R>>) {
    forall i :: 0 < i < |log| ==> log[i - 1].appended <= log[i].appended
  }

  /** The same builds have started, the same one last, and the same builds have ended. */
  ghost predicate SameCourse<R>(a: seq<Event<R>>, b: seq<Event<R>>) {
    && Started(a) == Started(b) && Completions(a) == Completions(b)
    && (LastStart(a).Some? <==> LastStart(b).Some?)
    && (LastStart(a).Some? ==> LastStart(a).value.buildID == LastStart(b).value.buildID)
  }

  lemma CourseNext<R>(a: seq<Event<R>>, b: seq<Event<R>>, e: Event<R>, f: Event<R>)
    requires SameCourse(a, b) && SameButTime(e, f)
    ensures SameCourse(a + [e], b + [f])
  {
    SequentialNext(a, e);
    SequentialNext(b, f);
    CompletionsNext(a, e);
    CompletionsNext(b, f);
  }

  lemma {:induction false} StoredCourse<R>(log: seq<Emission<R>>)
    ensures SameCourse(Stored(log), Emitted(log))
  {
    if log != [] {
      var init, last := log[..|log| - 1], Last(log);
      StoredCourse(init);
      LastStored(log, init, last);
      CourseNext(Stored(init), Emitted(init), StoredEvent(last), last.event);
    }
  }

  /** Builds that do not overlap when they are emitted do not overlap in the store. */
  lemma {:induction false} StoredSequential<R>(log: seq<Emission<R>>)
    requires Sequential(Emitted(log)) && InAppendOrder(log)
    ensures Sequential(Stored(log))
  {
    if log != [] {
      var init, last := log[..|log| - 1], Last(log);
      LastStored(log, init, last);
      SequentialNext(Emitted(init), last.event);
      SequentialNext(Stored(init), StoredEvent(last));
      StoredSequential(init);
      StoredCourse(init);
      if init != [] {
        LastStored(init, init[..|init| - 1], Last(init));
        assert log[|log| - 2].appended <= log[|log| - 1].appended;
        SecondsMonotonic(Last(init).appended, last.appended);
      }
    }
  }

  lemma SecondsMonotonic(a: Time, b: Time)
    requires a <= b
    ensures WholeSeconds(a) <= WholeSeconds(b)
  {
  }

  lemma {:induction false} SequentialPrefix<R>(before: seq<Event<R>>, after: seq<Event<R>>)
    requires Sequential(before + after)
    ensures Sequential(before)
    decreases |after|
  {
    if after == [] {
      assert before + after == before;
    } else {
      var init, all := after[..|after| - 1], before + after;
      assert all[..|all| - 1] == before + init;
      SequentialPrefix(before, init);
    }
  }

  /** Two builds that overlap, each event stored at once. */
  function OverlapStored(startA: Time, startB: Time, endB: Time, endA: Time): (log: seq<Emission<int>>)
    ensures |log| == 4
  {
    var events := Overlap(startA, startB, endB, endA);
    [Emission(events[0], startA), Emission(events[1], startB), Emission(events[2], endB), Emission(events[3], endA)]
  }

  lemma OverlapRows(startA: Time, startB: Time, endB: Time, endA: Time)
    ensures var log := OverlapStored(startA, startB, endB, endA);
            && Emitted(log) == Overlap(startA, startB, endB, endA)
            && Stored(log) ==
               Overlap(WholeSeconds(startA), WholeSeconds(startB), WholeSeconds(endB), WholeSeconds(endA))
  {
    var log := OverlapStored(startA, startB, endB, endA);
    LastStored(log, log[..3], log[3]);
    LastStored(log[..3], log[..3][..2], log[2]);
    LastStored(log[..2], log[..2][..1], log[1]);
    LastStored(log[..1], log[..1][..0], log[0]);
    assert log[..3][..2] == log[..2] && log[..2][..1] == log[..1] && log[..1][..0] == [];
  }

  /** With overlapping builds and a small bound, a restart even changes which builds are shown. */
  lemma RestartLosesBuild(before: seq<Emission<int>>, after: seq<Emission<int>>)
    requires before == OverlapStored(SECOND, 2 * SECOND, 3 * SECOND, 4 * SECOND)
    requires after == [Emission(Event("c", 5 * SECOND, BuildFailed(None)), 5 * SECOND)]
    ensures Uninterrupted(before, after, 2).history == ["c", "a"]
    ensures Restarted(before, after, 2).history == ["c", "b"]
  {
    var a, b, c, d := SECOND, 2 * SECOND, 3 * SECOND, 4 * SECOND;
    assert WholeSeconds(a) == a && WholeSeconds(b) == b && WholeSeconds(c) == c && WholeSeconds(d) == d;
    OverlapRows(a, b, c, d);
    var live := OverlapLive(a, b, c, d, 2);
    OverlapSorted(live.builds);
    LastStored(after, [], after[0]);
    ThirdBuild(live, after[0].event, "a", "b");
    ThirdBuild(Rebuilt(Stored(before), 2), after[0].event, "b", "a");
  }

  lemma ThirdBuild<R>(v: View<R>, e: Event<R>, x: string, y: string)
    requires v.history == [x, y] && e.Terminates() && e.buildID != x && e.buildID != y
    ensures Continued(v, [e], 2).history == [e.buildID, x]
  {
    OneMore(v, e, 2);
    assert [e.buildID] + [x, y] == [e.buildID, x, y];
    assert [e.buildID, x, y][..2] == [e.buildID, x];
  }

  /** Builds that start in the same second keep the order in which they completed. */
  lemma SameSecondKeepsOrder(log: seq<Emission<int>>)
    requires log == OverlapStored(1, 2, 3, 4)
    ensures Live(Emitted(log), 2).history == Rebuilt(Stored(log), 2).history == ["a", "b"]
    ensures Rebuilt(Emitted(log), 2).history == ["b", "a"]
  {
    OverlapRows(1, 2, 3, 4);
    OverlapReorders(2);
    var read := OverlapLive(0, 0, 0, 0, 2);
    SortedStays(read.builds, read.history);
  }

  lemma OneMore<R>(v: View<R>, e: Event<R>, maxSize: nat)
    requires e.Terminates() && e.buildID !in v.history
    ensures Continued(v, [e], maxSize).history == Take([e.buildID] + v.history, maxSize)
  {
    assert [e][..0] == [];
  }
}
