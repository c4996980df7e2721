/** The build history projection: a fold over the event log that keeps a summary of every build and a
    bounded list of completed ones. */
module Projection {
  import opened Common

  type Time = int

  // ---------------------------------------------------------------- events and summaries

  datatype Completion = Completion(status: string, artifacts: map<string, string>)
  datatype Failure = Failure(stage: string, message: string)

  /** What an event says; `None` stands for a payload that cannot be decoded. `R` is a build report. */
  datatype Kind<R> =
    | BuildStarted(tenant: Option<string>)
    | RepositoryCloned
    | DocumentsDiscovered(fileCount: Option<int>)
    | BuildCompleted(completion: Option<Completion>)
    | BuildFailed(failure: Option<Failure>)
    | BuildReportGenerated(report: Option<R>)
    | OtherEvent

  datatype Event<R> = Event(buildID: string, at: Time, kind: Kind<R>) {
    predicate Tracked() {
      buildID != "" && buildID != "unknown"
    }
    predicate Starts() {
      Tracked() && kind.BuildStarted?
    }
    predicate Terminates() {
      Tracked() && (kind.BuildCompleted? || kind.BuildFailed?)
    }
  }

  datatype Summary<R> = Summary(
    tenantID: string, status: string, startedAt: Time, completedAt: Option<Time>, duration: int,
    repoCount: int, fileCount: int, errorStage: string, errorMessage: string,
    artifacts: map<string, string>, report: Option<R>)

  function NewSummary<R>(at: Time): Summary<R> {
    Summary("", "running", at, None, 0, 0, 0, "", "", map[], None)
  }

  function Updated<R>(s: Summary<R>, e: Event<R>): Summary<R> {
    match e.kind
    case BuildStarted(tenant) =>
      s.(startedAt := e.at, status := "running", tenantID := if tenant.Some? then tenant.value else s.tenantID)
    case RepositoryCloned => s.(repoCount := s.repoCount + 1)
    case DocumentsDiscovered(count) => s.(fileCount := s.fileCount + if count.Some? then count.value else 0)
    case BuildCompleted(completion) =>
      var done := s.(completedAt := Some(e.at), duration := e.at - s.startedAt, status := "completed");
      if completion.None? then done
      else done.(status := if completion.value.status != "" then completion.value.status else "completed",
                 artifacts := completion.value.artifacts)
    case BuildFailed(failure) =>
      var done := s.(completedAt := Some(e.at), duration := e.at - s.startedAt, status := "failed");
      if failure.None? then done
      else done.(errorStage := failure.value.stage, errorMessage := failure.value.message)
    case BuildReportGenerated(report) => if report.Some? then s.(report := report) else s
    case OtherEvent => s
  }

  // ---------------------------------------------------------------- the fold

  datatype View<R> = View(builds: map<string, Summary<R>>, history: seq<string>)

  function Take<T>(s: seq<T>, n: nat): seq<T> {
    if |s| <= n then s else s[..n]
  }

  function SummaryOf<R>(builds: map<string, Summary<R>>, e: Event<R>): Summary<R> {
    Updated(if e.buildID in builds then builds[e.buildID] else NewSummary(e.at), e)
  }

  function Recorded(history: seq<string>, id: string, maxSize: nat): seq<string> {
    if id in history then history else Take([id] + history, maxSize)
  }

  function Applied<R>(v: View<R>, e: Event<R>, maxSize: nat): View<R> {
    if !e.Tracked() then v
    else View(v.builds[e.buildID := SummaryOf(v.builds, e)],
              if e.Terminates() then Recorded(v.history, e.buildID, maxSize) else v.history)
  }

  /** The live projection: every event applied as it is emitted. */
  function Live<R>(events: seq<Event<R>>, maxSize: nat): View<R> {
    if events == [] then View(map[], []) else Applied(Live(events[..|events| - 1], maxSize), Last(events), maxSize)
  }

  // ---------------------------------------------------------------- sorting by start time

  predicate Older<R>(builds: map<string, Summary<R>>, a: string, b: string) {
    a in builds && b in builds && builds[a].startedAt < builds[b].startedAt
  }

  /** Moves `x` in front of the entries at the end of `ids` that started before it. */
  function Placed<R>(builds: map<string, Summary<R>>, ids: seq<string>, x: string): seq<string> {
    if ids == [] || !Older(builds, Last(ids), x) then ids + [x]
    else Placed(builds, ids[..|ids| - 1], x) + [Last(ids)]
  }

  function SortedByStart<R>(builds: map<string, Summary<R>>, ids: seq<string>): seq<string> {
    if ids == [] then [] else Placed(builds, SortedByStart(builds, ids[..|ids| - 1]), Last(ids))
  }

  /** The projection rebuilt from the log. */
  function Rebuilt<R>(events: seq<Event<R>>, maxSize: nat): View<R> {
    var v := Live(events, maxSize);
    View(v.builds, Take(SortedByStart(v.builds, v.history), maxSize))
  }

  // ---------------------------------------------------------------- the implementation

  /** A summary object; builds map and history share it. */
  class BuildSummary<R> {
    const buildID: string
    var data: Summary<R>

    constructor (buildID: string, at: Time)
      ensures this.buildID == buildID && data == NewSummary(at)
    {
      this.buildID := buildID;
      data := NewSummary(at);
    }
  }

  class BuildHistoryProjection<R> {
    var builds: map<string, BuildSummary<R>>
    var history: seq<BuildSummary<R>>
    const maxSize: nat

    ghost predicate Valid()
      reads this
    {
      && maxSize > 0
      && (forall id :: id in builds ==> builds[id].buildID == id)
      && (forall h :: h in history ==> h.buildID in builds && builds[h.buildID] == h)
    }

    ghost function Builds(): map<string, Summary<R>>
      reads `builds, builds.Values
    {
      map id | id in builds :: builds[id].data
    }

    ghost function State(): View<R>
      reads this, builds.Values
    {
      View(Builds(), Ids(history))
    }

    constructor (maxHistorySize: int)
      ensures Valid() && State() == View(map[], []) && maxSize == if maxHistorySize <= 0 then 100 else maxHistorySize
    {
      maxSize := if maxHistorySize <= 0 then 100 else maxHistorySize;
      builds := map[];
      history := [];
    }

    method UpdateSummary(s: BuildSummary<R>, e: Event<R>)
      modifies s
      ensures s.data == Updated(old(s.data), e)
    {
      match e.kind
      case BuildStarted(tenant) =>
        s.data := s.data.(startedAt := e.at, status := "running");
        if tenant.Some? {
          s.data := s.data.(tenantID := tenant.value);
        }
      case RepositoryCloned =>
        s.data := s.data.(repoCount := s.data.repoCount + 1);
      case DocumentsDiscovered(count) =>
        if count.Some? {
          s.data := s.data.(fileCount := s.data.fileCount + count.value);
        }
      case BuildCompleted(completion) =>
        s.data := s.data.(completedAt := Some(e.at), duration := e.at - s.data.startedAt, status := "completed");
        if completion.Some? {
          if completion.value.status != "" {
            s.data := s.data.(status := completion.value.status);
          }
          s.data := s.data.(artifacts := completion.value.artifacts);
        }
      case BuildFailed(failure) =>
        s.data := s.data.(completedAt := Some(e.at), duration := e.at - s.data.startedAt, status := "failed");
        if failure.Some? {
          s.data := s.data.(errorStage := failure.value.stage, errorMessage := failure.value.message);
        }
      case BuildReportGenerated(report) =>
        if report.Some? {
          s.data := s.data.(report := report);
        }
      case OtherEvent =>
    }

    method AddToHistory(summary: BuildSummary<R>)
      requires Valid() && summary.buildID in builds && builds[summary.buildID] == summary
      modifies `history
      ensures Valid() && Ids(history) == Recorded(old(Ids(history)), summary.buildID, maxSize)
    {
      for i := 0 to |history|
        invariant forall k :: 0 <= k < i ==> Ids(history)[k] != summary.buildID
      {
        if history[i].buildID == summary.buildID {
          assert Ids(history)[i] == summary.buildID;
          return;
        }
      }
      history := [summary] + history;
      Trim();
    }

    method Trim()
      requires Valid()
      modifies `history
      ensures Valid() && Ids(history) == Take(old(Ids(history)), maxSize)
    {
      if |history| > maxSize {
        history := history[..maxSize];
      }
    }

    /** The summary of the event's build, made if there is none yet, and updated. */
    method Record(e: Event<R>) returns (summary: BuildSummary<R>)
      requires Valid() && e.Tracked()
      modifies this, builds.Values
      ensures Valid() && history == old(history) && Ids(history) == old(Ids(history))
      ensures Builds() == old(Builds())[e.buildID := SummaryOf(old(Builds()), e)]
      ensures e.buildID in builds && builds[e.buildID] == summary
      ensures fresh(builds.Values - old(builds.Values))
    {
      if e.buildID in builds {
        summary := builds[e.buildID];
      } else {
        summary := new BuildSummary(e.buildID, e.at);
        builds := builds[e.buildID := summary];
      }
      UpdateSummary(summary, e);
    }

    method Apply(e: Event<R>)
      requires Valid()
      modifies this, builds.Values
      ensures Valid() && State() == Applied(old(State()), e, maxSize)
      ensures fresh(builds.Values - old(builds.Values))
    {
      if e.buildID == "" || e.buildID == "unknown" {
        return;
      }
      var summary := Record(e);
      if e.kind.BuildCompleted? || e.kind.BuildFailed? {
        AddToHistory(summary);
      }
    }

    predicate StartsAfter(i: nat, j: nat)
      requires i < |history| && j < |history|
      reads this, history
    {
      history[i].data.startedAt > history[j].data.startedAt
    }

    lemma HistoryOrder(i: nat, j: nat)
      requires Valid() && i < |history| && j < |history|
      ensures StartsAfter(i, j) <==> Older(Builds(), Ids(history)[j], Ids(history)[i])
    {
      assert history[i] in history && history[j] in history;
    }

    /** Entry `i` of `all` is on its way to its place, at position `j` now. */
    ghost predicate Sifting(view: map<string, Summary<R>>, all: seq<string>, i: nat, j: nat)
      reads this, builds.Values
    {
      Valid() && Builds() == view && j <= i < |all| == |history| && Moving(view, Ids(history), all, i, j)
    }

    method SwapBack(ghost view: map<string, Summary<R>>, ghost all: seq<string>, ghost i: nat, j: nat)
      requires 0 < j && Sifting(view, all, i, j) && StartsAfter(j, j - 1)
      modifies `history
      ensures Sifting(view, all, i, j - 1)
    {
      HistoryOrder(j, j - 1);
      MoveBack(view, Ids(history), all, i, j);
      IdsSwap(history, j, j - 1);
      history := Swap(history, j, j - 1);
      assert Builds() == view;
    }

    lemma Settled(view: map<string, Summary<R>>, all: seq<string>, i: nat, j: nat)
      requires Sifting(view, all, i, j) && (j > 0 ==> !StartsAfter(j, j - 1))
      ensures Ids(history) == Placed(view, all[..i], all[i]) + all[i + 1..]
    {
      if j > 0 {
        HistoryOrder(j, j - 1);
      }
      MovedBack(view, Ids(history), all, i, j);
    }

    /** The inner loop of the sort: moves entry `i` back to its place among the entries before it. */
    method Insert(i: nat, ghost all: seq<string>)
      requires Valid() && i < |history| && Ids(history) == all
      modifies `history
      ensures Valid() && |history| == |all|
      ensures Ids(history) == Placed(Builds(), all[..i], all[i]) + all[i + 1..]
    {
      ghost var view := Builds();
      MovingStart(view, all, i);
      var j := i;
      while j > 0 && StartsAfter(j, j - 1)
        invariant 0 <= j <= i && Sifting(view, all, i, j)
      {
        SwapBack(view, all, i, j);
        j := j - 1;
      }
      Settled(view, all, i, j);
    }

    /** The first `i` entries are sorted. */
    ghost predicate Sorting(view: map<string, Summary<R>>, all: seq<string>, i: nat)
      reads this, builds.Values
    {
      Valid() && Builds() == view && |history| == |all| && SortedUpTo(view, Ids(history), all, i)
    }

    method InsertNext(ghost view: map<string, Summary<R>>, ghost all: seq<string>, i: nat)
      requires Sorting(view, all, i) && i < |history|
      modifies `history
      ensures Sorting(view, all, i + 1)
    {
      ghost var before := Ids(history);
      SortStep(view, before, all, i);
      Insert(i, before);
      assert Builds() == view;
    }

    /** The insertion sort, newest start first; it swaps neighbours in place. */
    method SortHistory()
      requires Valid()
      modifies `history
      ensures Valid() && Ids(history) == SortedByStart(Builds(), old(Ids(history)))
    {
      ghost var all, view := Ids(history), Builds();
      if history == [] {
        return;
      }
      var i := 1;
      SortStart(view, all);
      while i < |history|
        invariant 1 <= i && Sorting(view, all, i)
      {
        InsertNext(view, all, i);
        i := i + 1;
      }
      SortingEnds(view, all, i);
    }

    lemma SortingEnds(view: map<string, Summary<R>>, all: seq<string>, i: nat)
      requires Sorting(view, all, i) && i >= |history|
      ensures Valid() && Builds() == view && Ids(history) == SortedByStart(view, all)
    {
      SortEnd(view, Ids(history), all);
    }

    method Replay(events: seq<Event<R>>)
      requires Valid() && builds == map[] && history == []
      modifies this
      ensures Valid() && State() == Live(events, maxSize)
    {
      for k := 0 to |events|
        invariant Valid() && State() == Live(events[..k], maxSize) && fresh(builds.Values)
      {
        ghost var upTo := events[..k + 1];
        assert upTo[..|upTo| - 1] == events[..k] && Last(upTo) == events[k];
        Apply(events[k]);
      }
      assert events[..|events|] == events;
    }

    /** Starts over from the whole log. */
    method Rebuild(events: seq<Event<R>>)
      requires Valid()
      modifies this
      ensures Valid() && State() == Rebuilt(events, maxSize)
    {
      builds := map[];
      history := [];
      Replay(events);
      ghost var live := Live(events, maxSize);
      assert Builds() == live.builds && Ids(history) == live.history;
      SortHistory();
      Trim();
    }
  }

  // ---------------------------------------------------------------- steps of the sort

  /** Entry `i` of `all` stands at position `j`, and the entries it has passed started before it. */
  ghost predicate Moving<R>(view: map<string, Summary<R>>, ids: seq<string>, all: seq<string>, i: nat, j: nat)
    requires j <= i < |all|
  {
    && ids == all[..j] + [all[i]] + all[j..i] + all[i + 1..]
    && Placed(view, all[..i], all[i]) == Placed(view, all[..j], all[i]) + all[j..i]
  }

  lemma MovingStart<R>(view: map<string, Summary<R>>, all: seq<string>, i: nat)
    requires i < |all|
    ensures Moving(view, all, all, i, i)
  {
    assert all[..i] + [all[i]] + all[i..i] + all[i + 1..] == all;
  }

  lemma MoveBack<R>(view: map<string, Summary<R>>, ids: seq<string>, all: seq<string>, i: nat, j: nat)
    requires 0 < j <= i < |all| && Moving(view, ids, all, i, j) && Older(view, ids[j - 1], ids[j])
    ensures Moving(view, Swap(ids, j, j - 1), all, i, j - 1)
  {
    assert all[..j][..j - 1] == all[..j - 1];
    assert all[j - 1..i] == [all[j - 1]] + all[j..i];
    assert Placed(view, all[..j], all[i]) == Placed(view, all[..j - 1], all[i]) + [all[j - 1]];
    assert Swap(ids, j, j - 1) == all[..j - 1] + [all[i]] + all[j - 1..i] + all[i + 1..];
  }

  lemma MovedBack<R>(view: map<string, Summary<R>>, ids: seq<string>, all: seq<string>, i: nat, j: nat)
    requires j <= i < |all| && Moving(view, ids, all, i, j)
    requires j > 0 ==> !Older(view, ids[j - 1], ids[j])
    ensures ids == Placed(view, all[..i], all[i]) + all[i + 1..]
  {
    assert j > 0 ==> ids[j - 1] == Last(all[..j]) && ids[j] == all[i];
    assert Placed(view, all[..j], all[i]) == all[..j] + [all[i]];
  }

  /** The first `i` entries of `all` are sorted, and the others are in place. */
  ghost predicate SortedUpTo<R>(view: map<string, Summary<R>>, ids: seq<string>, all: seq<string>, i: nat) {
    i <= |all| && |SortedByStart(view, all[..i])| == i && ids == SortedByStart(view, all[..i]) + all[i..]
  }

  lemma SortStart<R>(view: map<string, Summary<R>>, all: seq<string>)
    requires all != []
    ensures SortedUpTo(view, all, all, 1)
  {
    var first := all[..1];
    assert first[..0] == [] && SortedByStart(view, first) == Placed(view, [], first[0]) == first;
    assert first + all[1..] == all;
  }

  lemma SortStep<R>(view: map<string, Summary<R>>, ids: seq<string>, all: seq<string>, i: nat)
    requires i < |all| && SortedUpTo(view, ids, all, i)
    ensures |ids| == |all|
    ensures SortedUpTo(view, Placed(view, ids[..i], ids[i]) + ids[i + 1..], all, i + 1)
  {
    var upTo := all[..i + 1];
    assert upTo[..|upTo| - 1] == all[..i] && Last(upTo) == all[i];
    assert ids[..i] == SortedByStart(view, all[..i]) && ids[i] == all[i] && ids[i + 1..] == all[i + 1..];
    PlacedElements(view, ids[..i], ids[i]);
  }

  lemma SortEnd<R>(view: map<string, Summary<R>>, ids: seq<string>, all: seq<string>)
    requires SortedUpTo(view, ids, all, |all|)
    ensures ids == SortedByStart(view, all)
  {
    assert all[..|all|] == all && all[|all|..] == [];
  }

  lemma {:induction false} PlacedElements<R>(view: map<string, Summary<R>>, ids: seq<string>, x: string)
    ensures multiset(Placed(view, ids, x)) == multiset(ids) + multiset{x}
    ensures |Placed(view, ids, x)| == |ids| + 1
  {
    if ids != [] && Older(view, Last(ids), x) {
      PlacedElements(view, ids[..|ids| - 1], x);
      assert ids == ids[..|ids| - 1] + [Last(ids)];
    }
  }

  lemma IdsSwap<R>(history: seq<BuildSummary<R>>, i: nat, j: nat)
    requires i < |history| && j < |history|
    ensures Ids(Swap(history, i, j)) == Swap(Ids(history), i, j)
    ensures forall h :: h in Swap(history, i, j) ==> h in history
  {
    forall h | h in Swap(history, i, j) ensures h in history {
      assert h in multiset(Swap(history, i, j));
    }
  }

  function Ids<R>(history: seq<BuildSummary<R>>): (ids: seq<string>)
    ensures |ids| == |history| && forall i :: 0 <= i < |ids| ==> ids[i] == history[i].buildID
  {
    seq(|history|, i requires 0 <= i < |history| => history[i].buildID)
  }
}
