/** What the summary of a build says: every field is decided by one of the build's own events, the last one
    that speaks of it. */
module BuildSummaries {
  import opened Common
  import opened Projection
  import opened ProjectionLaws

  /** Event `k` is the last one of this kind. */
  ghost predicate LastAt<R(!new)>(events: seq<Event<R>>, k: int, speaks: Kind<R> -> bool) {
    0 <= k < |events| && speaks(events[k].kind) && forall j :: k < j < |events| ==> !speaks(events[j].kind)
  }

  ghost predicate NoneAt<R(!new)>(events: seq<Event<R>>, speaks: Kind<R> -> bool) {
    forall j :: 0 <= j < |events| ==> !speaks(events[j].kind)
  }

  /** The summary after the first `n` events. */
  function After<R>(events: seq<Event<R>>, n: nat): Summary<R>
    requires 0 < n <= |events|
  {
    OwnSummary(events[..n]).value
  }

  /** The summary before event `k`. */
  function Before<R>(events: seq<Event<R>>, k: nat): Summary<R>
    requires k < |events|
  {
    if k == 0 then NewSummary(events[0].at) else After(events, k)
  }

  lemma AfterNext<R>(events: seq<Event<R>>, k: nat)
    requires k < |events|
    ensures After(events, k + 1) == Updated(Before(events, k), events[k])
  {
    var upTo := events[..k];
    OwnNext(upTo, events[k]);
    assert upTo + [events[k]] == events[..k + 1];
    if k == 0 {
      assert upTo == [];
    } else {
      assert upTo != [] && OwnSummary(upTo).Some?;
    }
  }

  /** Events that do not speak of a field leave it as it is. */
  ghost predicate Silent<R(!new), F(!new)>(field: Summary<R> -> F, speaks: Kind<R> -> bool) {
    forall s, e: Event<R> :: !speaks(e.kind) ==> field(Updated(s, e)) == field(s)
  }

  lemma {:induction false} FieldStays<R(!new), F(!new)>(events: seq<Event<R>>, field: Summary<R> -> F,
                                                        speaks: Kind<R> -> bool, k: nat, n: nat)
    requires Silent(field, speaks) && k < n <= |events|
    requires forall j :: k < j < n ==> !speaks(events[j].kind)
    ensures field(After(events, n)) == field(After(events, k + 1))
    decreases n
  {
    if k + 1 < n {
      FieldStays(events, field, speaks, k, n - 1);
      OneSilent(events, field, speaks, n - 1);
    }
  }

  lemma OneSilent<R(!new), F(!new)>(events: seq<Event<R>>, field: Summary<R> -> F, speaks: Kind<R> -> bool, n: nat)
    requires Silent(field, speaks) && 0 < n < |events| && !speaks(events[n].kind)
    ensures field(After(events, n + 1)) == field(After(events, n))
  {
    AfterNext(events, n);
  }

  /** The field is what the last event that speaks of it made of it. */
  lemma FieldOfLast<R(!new), F(!new)>(events: seq<Event<R>>, field: Summary<R> -> F, speaks: Kind<R> -> bool, k: nat)
    requires Silent(field, speaks) && LastAt(events, k, speaks)
    ensures field(OwnSummary(events).value) == field(Updated(Before(events, k), events[k]))
  {
    FieldStays(events, field, speaks, k, |events|);
    AfterNext(events, k);
    assert events[..|events|] == events;
  }

  /** If none speaks of it, the field is that of a new build. */
  lemma FieldOfNone<R(!new), F(!new)>(events: seq<Event<R>>, field: Summary<R> -> F, speaks: Kind<R> -> bool)
    requires Silent(field, speaks) && events != [] && NoneAt(events, speaks)
    ensures field(OwnSummary(events).value) == field(NewSummary(events[0].at))
  {
    FieldStays(events, field, speaks, 0, |events|);
    AfterNext(events, 0);
    assert events[..|events|] == events;
  }

  // ---------------------------------------------------------------- which events speak of what

  predicate Starting<R>(kind: Kind<R>) {
    kind.BuildStarted?
  }

  predicate Ending<R>(kind: Kind<R>) {
    kind.BuildCompleted? || kind.BuildFailed?
  }

  predicate Deciding<R>(kind: Kind<R>) {
    Starting(kind) || Ending(kind)
  }

  predicate NamingTenant<R>(kind: Kind<R>) {
    kind.BuildStarted? && kind.tenant.Some?
  }

  predicate NamingArtifacts<R>(kind: Kind<R>) {
    kind.BuildCompleted? && kind.completion.Some?
  }

  predicate NamingFailure<R>(kind: Kind<R>) {
    kind.BuildFailed? && kind.failure.Some?
  }

  predicate Reporting<R>(kind: Kind<R>) {
    kind.BuildReportGenerated? && kind.report.Some?
  }

  /** The start in force before event `k`: that of the last start event, or else of the first event. */
  ghost predicate InForce<R(!new)>(events: seq<Event<R>>, k: nat, start: Time)
    requires events != [] && k <= |events|
  {
    || (NoneAt(events[..k], Starting) && start == events[0].at)
    || (exists i :: LastAt(events[..k], i, Starting) && start == events[i].at)
  }

  // ---------------------------------------------------------------- the fields

  /** The status is decided by the last start, completion or failure. */
  lemma StatusIsLast<R(!new)>(events: seq<Event<R>>)
    requires events != []
    ensures var status := OwnSummary(events).value.status;
            && (NoneAt(events, Deciding) ==> status == "running")
            && forall k :: LastAt(events, k, Deciding) ==>
                 match events[k].kind
                 case BuildStarted(_) => status == "running"
                 case BuildCompleted(None) => status == "completed"
                 case BuildCompleted(Some(c)) => status == if c.status != "" then c.status else "completed"
                 case BuildFailed(_) => status == "failed"
                 case _ => false
  {
    var field := (s: Summary<R>) => s.status;
    assert Silent(field, Deciding);
    if NoneAt(events, Deciding) {
      FieldOfNone(events, field, Deciding);
    }
    forall k | LastAt(events, k, Deciding)
      ensures OwnSummary(events).value.status == Updated(Before(events, k), events[k]).status
    {
      FieldOfLast(events, field, Deciding, k);
    }
  }

  /** The build started at its last start event, or else at its first event. */
  lemma StartIsLast<R(!new)>(events: seq<Event<R>>)
    requires events != []
    ensures InForce(events, |events|, OwnSummary(events).value.startedAt)
  {
    var field := (s: Summary<R>) => s.startedAt;
    assert Silent(field, Starting) && events[..|events|] == events;
    if NoneAt(events, Starting) {
      FieldOfNone(events, field, Starting);
    } else {
      var k := LastOne(events, Starting);
      FieldOfLast(events, field, Starting, k);
    }
  }

  lemma {:induction false} LastOne<R(!new)>(events: seq<Event<R>>, speaks: Kind<R> -> bool) returns (k: nat)
    requires !NoneAt(events, speaks)
    ensures LastAt(events, k, speaks)
  {
    var n := |events| - 1;
    if speaks(events[n].kind) {
      k := n;
    } else {
      assert !NoneAt(events[..n], speaks);
      k := LastOne(events[..n], speaks);
    }
  }

  /** The build ended at its last completion or failure, and its duration runs from the start that was then in
      force. */
  lemma EndIsLast<R(!new)>(events: seq<Event<R>>, k: nat)
    requires LastAt(events, k, Ending)
    ensures OwnSummary(events).value.completedAt == Some(events[k].at)
    ensures InForce(events, k, events[k].at - OwnSummary(events).value.duration)
  {
    EndTimeIsLast(events);
    DurationAt(events, k);
  }

  lemma NoEnd<R(!new)>(events: seq<Event<R>>)
    requires events != [] && NoneAt(events, Ending)
    ensures OwnSummary(events).value.completedAt == None && OwnSummary(events).value.duration == 0
  {
    EndTimeIsLast(events);
    NoDuration(events);
  }

  lemma EndTimeIsLast<R(!new)>(events: seq<Event<R>>)
    requires events != []
    ensures NoneAt(events, Ending) ==> OwnSummary(events).value.completedAt == None
    ensures forall k :: LastAt(events, k, Ending) ==> OwnSummary(events).value.completedAt == Some(events[k].at)
  {
    var field := (s: Summary<R>) => s.completedAt;
    assert Silent(field, Ending);
    if NoneAt(events, Ending) {
      FieldOfNone(events, field, Ending);
    }
    forall k | LastAt(events, k, Ending) ensures OwnSummary(events).value.completedAt == Some(events[k].at) {
      FieldOfLast(events, field, Ending, k);
    }
  }

  lemma NoDuration<R(!new)>(events: seq<Event<R>>)
    requires events != []
    ensures NoneAt(events, Ending) ==> OwnSummary(events).value.duration == 0
  {
    var field := (s: Summary<R>) => s.duration;
    assert Silent(field, Ending);
    if NoneAt(events, Ending) {
      FieldOfNone(events, field, Ending);
    }
  }

  lemma DurationAt<R(!new)>(events: seq<Event<R>>, k: nat)
    requires LastAt(events, k, Ending)
    ensures InForce(events, k, events[k].at - OwnSummary(events).value.duration)
  {
    var field := (s: Summary<R>) => s.duration;
    assert Silent(field, Ending);
    FieldOfLast(events, field, Ending, k);
    DurationOfEnd(Before(events, k), events[k]);
    StartBefore(events, k);
  }

  lemma DurationOfEnd<R>(s: Summary<R>, e: Event<R>)
    requires Ending(e.kind)
    ensures Updated(s, e).duration == e.at - s.startedAt
  {
  }

  lemma StartBefore<R(!new)>(events: seq<Event<R>>, k: nat)
    requires k < |events|
    ensures InForce(events, k, Before(events, k).startedAt)
  {
    if k > 0 {
      var before := events[..k];
      StartIsLast(before);
      assert before[..|before|] == before;
      if i :| LastAt(before, i, Starting) && before[i].at == After(events, k).startedAt {
        assert events[i] == before[i];
      }
    }
  }

  /** Stage and message are those of the last failure that can be decoded. */
  lemma FailureIsLast<R(!new)>(events: seq<Event<R>>)
    requires events != []
    ensures var s := OwnSummary(events).value;
            && (NoneAt(events, NamingFailure) ==> s.errorStage == "" && s.errorMessage == "")
            && forall k :: LastAt(events, k, NamingFailure) ==>
                 s.errorStage == events[k].kind.failure.value.stage
                 && s.errorMessage == events[k].kind.failure.value.message
  {
    StageIsLast(events);
    MessageIsLast(events);
  }

  lemma StageIsLast<R(!new)>(events: seq<Event<R>>)
    requires events != []
    ensures NoneAt(events, NamingFailure) ==> OwnSummary(events).value.errorStage == ""
    ensures forall k :: LastAt(events, k, NamingFailure) ==>
              OwnSummary(events).value.errorStage == events[k].kind.failure.value.stage
  {
    var field := (s: Summary<R>) => s.errorStage;
    assert Silent(field, NamingFailure);
    if NoneAt(events, NamingFailure) {
      FieldOfNone(events, field, NamingFailure);
    }
    forall k | LastAt(events, k, NamingFailure)
      ensures OwnSummary(events).value.errorStage == events[k].kind.failure.value.stage
    {
      FieldOfLast(events, field, NamingFailure, k);
    }
  }

  lemma MessageIsLast<R(!new)>(events: seq<Event<R>>)
    requires events != []
    ensures NoneAt(events, NamingFailure) ==> OwnSummary(events).value.errorMessage == ""
    ensures forall k :: LastAt(events, k, NamingFailure) ==>
              OwnSummary(events).value.errorMessage == events[k].kind.failure.value.message
  {
    var field := (s: Summary<R>) => s.errorMessage;
    assert Silent(field, NamingFailure);
    if NoneAt(events, NamingFailure) {
      FieldOfNone(events, field, NamingFailure);
    }
    forall k | LastAt(events, k, NamingFailure)
      ensures OwnSummary(events).value.errorMessage == events[k].kind.failure.value.message
    {
      FieldOfLast(events, field, NamingFailure, k);
    }
  }

  /** The artifacts are those of the last completion that can be decoded, the tenant that of the last such
      start, and the report the last one. */
  lemma PayloadsAreLast<R(!new)>(events: seq<Event<R>>)
    requires events != []
    ensures var s := OwnSummary(events).value;
            && (NoneAt(events, NamingArtifacts) ==> s.artifacts == map[])
            && (forall k :: LastAt(events, k, NamingArtifacts) ==>
                  s.artifacts == events[k].kind.completion.value.artifacts)
            && (NoneAt(events, NamingTenant) ==> s.tenantID == "")
            && (forall k :: LastAt(events, k, NamingTenant) ==> s.tenantID == events[k].kind.tenant.value)
            && (NoneAt(events, Reporting) ==> s.report == None)
            && (forall k :: LastAt(events, k, Reporting) ==> s.report == events[k].kind.report)
  {
    ArtifactsAreLast(events);
    TenantIsLast(events);
    ReportIsLast(events);
  }

  lemma ArtifactsAreLast<R(!new)>(events: seq<Event<R>>)
    requires events != []
    ensures var s := OwnSummary(events).value;
            && (NoneAt(events, NamingArtifacts) ==> s.artifacts == map[])
            && (forall k :: LastAt(events, k, NamingArtifacts) ==>
                  s.artifacts == events[k].kind.completion.value.artifacts)
  {
    var field := (s: Summary<R>) => s.artifacts;
    assert Silent(field, NamingArtifacts);
    if NoneAt(events, NamingArtifacts) {
      FieldOfNone(events, field, NamingArtifacts);
    }
    forall k | LastAt(events, k, NamingArtifacts)
      ensures OwnSummary(events).value.artifacts == Updated(Before(events, k), events[k]).artifacts
    {
      FieldOfLast(events, field, NamingArtifacts, k);
    }
  }

  lemma TenantIsLast<R(!new)>(events: seq<Event<R>>)
    requires events != []
    ensures var s := OwnSummary(events).value;
            && (NoneAt(events, NamingTenant) ==> s.tenantID == "")
            && (forall k :: LastAt(events, k, NamingTenant) ==> s.tenantID == events[k].kind.tenant.value)
  {
    var field := (s: Summary<R>) => s.tenantID;
    assert Silent(field, NamingTenant);
    if NoneAt(events, NamingTenant) {
      FieldOfNone(events, field, NamingTenant);
    }
    forall k | LastAt(events, k, NamingTenant)
      ensures OwnSummary(events).value.tenantID == Updated(Before(events, k), events[k]).tenantID
    {
      FieldOfLast(events, field, NamingTenant, k);
    }
  }

  lemma ReportIsLast<R(!new)>(events: seq<Event<R>>)
    requires events != []
    ensures var s := OwnSummary(events).value;
            && (NoneAt(events, Reporting) ==> s.report == None)
            && (forall k :: LastAt(events, k, Reporting) ==> s.report == events[k].kind.report)
  {
    var field := (s: Summary<R>) => s.report;
    assert Silent(field, Reporting);
    if NoneAt(events, Reporting) {
      FieldOfNone(events, field, Reporting);
    }
    forall k | LastAt(events, k, Reporting)
      ensures OwnSummary(events).value.report == Updated(Before(events, k), events[k]).report
    {
      FieldOfLast(events, field, Reporting, k);
    }
  }
}
