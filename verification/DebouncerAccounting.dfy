/** What the emitted builds account for: every accepted request exactly once, under the right job ID. */
module DebouncerAccounting {
  import opened Common
  import opened Debouncer
  import opened DebouncerRuns

  // ---------------------------------------------------------------- conservation

  /** The requests that the first `n` events of a run brought and that were accepted, in order. */
  function AcceptedIn(r: Trace, n: nat): seq<Accepted>
    requires n <= |r.events| == |r.outcomes|
  {
    if n == 0 then [] else AcceptedIn(r, n - 1) + AcceptedBy(r.At(n - 1), r.events[n - 1])
  }

  function AcceptedBy(s: State, e: Timed): seq<Accepted> {
    if e.event.Request? && Accepts(s, e.event.req) then [Stamp(e.event.req, e.at)] else []
  }

  function Batches(emissions: seq<Emission>): seq<seq<Accepted>> {
    seq(|emissions|, i requires 0 <= i < |emissions| => emissions[i].batch)
  }

  /** One step moves requests from the batch to the emission, and nothing else. */
  lemma StepConserves(cfg: Config, s: State, e: Timed)
    ensures var o := Step(cfg, s, e.at, e.event);
            if o.emitted.Some? then
              o.emitted.value.batch == s.batch + AcceptedBy(s, e) && o.state.batch == [] && o.emitted.value.batch != []
            else
              o.state.batch == s.batch + AcceptedBy(s, e)
  {
    match e.event
    case Request(req, env) =>
    case QuietTick(env) =>
    case MaxTick(env) =>
    case PollTick(busyAtPoll, env) =>
  }

  /** Every accepted request is in exactly one emitted batch or still pending, in arrival order. */
  lemma {:induction false} Conservation(cfg: Config, r: Trace, n: nat)
    requires IsRun(cfg, r) && n <= |r.events|
    ensures Flatten(Batches(Emissions(r, n))) + r.At(n).batch == AcceptedIn(r, n)
  {
    if n > 0 {
      var m := n - 1;
      Conservation(cfg, r, m);
      assert StepAt(cfg, r, m);
      StepConserves(cfg, r.At(m), r.events[m]);
      var before, accepted := Flatten(Batches(Emissions(r, m))), AcceptedBy(r.At(m), r.events[m]);
      if r.outcomes[m].emitted.Some? {
        BatchesAppend(Emissions(r, m), r.outcomes[m].emitted.value);
        NothingLeft(before + r.outcomes[m].emitted.value.batch);
      }
      Assoc(before, r.At(m).batch, accepted);
    }
  }

  lemma NothingLeft(s: seq<Accepted>)
    ensures s + [] == s
  {
  }

  lemma BatchesAppend(emissions: seq<Emission>, e: Emission)
    ensures Flatten(Batches(emissions + [e])) == Flatten(Batches(emissions)) + e.batch
  {
    var all := Batches(emissions + [e]);
    assert all == Batches(emissions) + [e.batch];
    assert all[..|all| - 1] == Batches(emissions) && Last(all) == e.batch;
  }

  function TotalRequests(emitted: seq<BuildNow>): int {
    if emitted == [] then 0 else TotalRequests(emitted[..|emitted| - 1]) + Last(emitted).requestCount
  }

  lemma {:induction false} TotalIsLength(emitted: seq<BuildNow>, emissions: seq<Emission>)
    requires |emitted| == |emissions|
    requires forall i :: 0 <= i < |emitted| ==> Reports(emitted[i], emissions[i])
    ensures TotalRequests(emitted) == |Flatten(Batches(emissions))|
  {
    if emitted != [] {
      var n := |emitted| - 1;
      TotalIsLength(emitted[..n], emissions[..n]);
      assert Batches(emissions)[..n] == Batches(emissions[..n]);
    }
  }

  /** The reported request counts and the pending batch add up to the accepted requests. */
  lemma RequestCountsAddUp(cfg: Config, r: Trace, emitted: seq<BuildNow>)
    requires IsRun(cfg, r) && |emitted| == |Emissions(r, |r.events|)|
    requires forall i :: 0 <= i < |emitted| ==> Reports(emitted[i], Emissions(r, |r.events|)[i])
    ensures TotalRequests(emitted) + |r.At(|r.events|).batch| == |AcceptedIn(r, |r.events|)|
  {
    Conservation(cfg, r, |r.events|);
    TotalIsLength(emitted, Emissions(r, |r.events|));
  }

  /** `Winner` is later-wins: a key's value comes from the last request of the batch that names it. */
  lemma {:induction false} WinnerIsLast(batch: seq<Accepted>, k: string, i: nat)
    requires i < |batch| && Names(batch[i].req.snapshot, k)
    requires forall j :: i < j < |batch| ==> !Names(batch[j].req.snapshot, k)
    ensures Winner(batch, k) == Some(batch[i].req.snapshot[k])
  {
    if i < |batch| - 1 {
      WinnerIsLast(batch[..|batch| - 1], k, i);
    }
  }

  lemma {:induction false} NoWinner(batch: seq<Accepted>, k: string)
    ensures Winner(batch, k).None? <==> forall j :: 0 <= j < |batch| ==> !Names(batch[j].req.snapshot, k)
  {
    if batch != [] {
      NoWinner(batch[..|batch| - 1], k);
      assert forall j :: 0 <= j < |batch| - 1 ==> batch[..|batch| - 1][j] == batch[j];
    }
  }

  // ---------------------------------------------------------------- job identity

  function JobID(batch: seq<Accepted>): string {
    if batch == [] then "" else Last(batch).req.jobID
  }

  /** A batch that starts right after the job `previous` was emitted. */
  predicate StartsFresh(batch: seq<Accepted>, previous: string) {
    batch != [] && (batch[0].req.jobID == "" || batch[0].req.jobID != previous)
  }

  /** The job ID of the latest emission; empty before the first one. */
  function LatestJob(emissions: seq<Emission>): string {
    if emissions == [] then "" else JobID(Last(emissions).batch)
  }

  ghost predicate JobsInOrder(emissions: seq<Emission>, s: State) {
    && (forall e :: e in emissions ==> e.batch != [])
    && s.lastEmitted == LatestJob(emissions)
    && (s.batch != [] ==> StartsFresh(s.batch, s.lastEmitted))
    && (forall i :: 0 < i < |emissions| ==> StartsFresh(emissions[i].batch, JobID(emissions[i - 1].batch)))
  }

  lemma StepJob(cfg: Config, s: State, e: Timed)
    requires s.batch != [] ==> StartsFresh(s.batch, s.lastEmitted)
    ensures var o := Step(cfg, s, e.at, e.event);
            if o.emitted.Some? then
              && o.emitted.value.batch != []
              && o.state.lastEmitted == JobID(o.emitted.value.batch)
              && StartsFresh(o.emitted.value.batch, s.lastEmitted)
              && o.state.batch == []
            else
              && o.state.lastEmitted == s.lastEmitted
              && (o.state.batch != [] ==> StartsFresh(o.state.batch, s.lastEmitted))
  {
    StepConserves(cfg, s, e);
    match e.event
    case Request(req, env) =>
    case QuietTick(env) =>
    case MaxTick(env) =>
    case PollTick(busyAtPoll, env) =>
  }

  /** Every emitted or pending batch was opened by a request with another job than the one emitted
      just before it (or with none), and the debouncer remembers the job it emitted last. */
  lemma {:induction false} JobIdentity(cfg: Config, r: Trace, n: nat)
    requires IsRun(cfg, r) && n <= |r.events|
    ensures JobsInOrder(Emissions(r, n), r.At(n))
  {
    if n > 0 {
      JobIdentity(cfg, r, n - 1);
      assert StepAt(cfg, r, n - 1);
      StepJob(cfg, r.At(n - 1), r.events[n - 1]);
      if r.outcomes[n - 1].emitted.Some? {
        JobsGoOn(Emissions(r, n - 1), r.At(n - 1), r.outcomes[n - 1].emitted.value, r.At(n));
      }
    }
  }

  lemma JobsGoOn(emissions: seq<Emission>, s: State, e: Emission, s': State)
    requires JobsInOrder(emissions, s) && e.batch != [] && StartsFresh(e.batch, s.lastEmitted)
    requires s'.lastEmitted == JobID(e.batch) && s'.batch == []
    ensures JobsInOrder(emissions + [e], s')
  {
    var all := emissions + [e];
    forall i | 0 < i < |all| ensures StartsFresh(all[i].batch, JobID(all[i - 1].batch)) {
      assert i < |emissions| ==> all[i] == emissions[i] && all[i - 1] == emissions[i - 1];
    }
  }

  /** Two consecutive builds with the same non-empty job ID have an accepted request with another
      (or no) job ID between them: the first of the second batch. */
  lemma RepeatedJobNeedsAnother(cfg: Config, r: Trace, i: nat)
    requires IsRun(cfg, r) && 0 < i < |Emissions(r, |r.events|)|
    requires var es := Emissions(r, |r.events|); JobID(es[i].batch) == JobID(es[i - 1].batch) != ""
    ensures var batch := Emissions(r, |r.events|)[i].batch; exists a :: a in batch && a.req.jobID != JobID(batch)
  {
    JobIdentity(cfg, r, |r.events|);
    var batch := Emissions(r, |r.events|)[i].batch;
    assert batch[0] in batch;
  }

  /** Redelivering the job emitted last, with nothing pending, neither builds nor becomes pending. */
  lemma RedeliveryIsDropped(cfg: Config, r: Trace, n: nat)
    requires IsRun(cfg, r) && n < |r.events| && r.events[n].event.Request?
    requires r.At(n).batch == [] && Emissions(r, n) != [] && r.events[n].event.req.jobID == r.At(n).lastEmitted != ""
    ensures r.events[n].event.req.jobID == JobID(Last(Emissions(r, n)).batch)
    ensures r.At(n + 1).batch == [] && Emissions(r, n + 1) == Emissions(r, n)
  {
    JobIdentity(cfg, r, n);
    assert StepAt(cfg, r, n);
    StepConserves(cfg, r.At(n), r.events[n]);
  }

  /** Every request enters the accounts as it is, with its own time or else the clock's, unless it
      redelivers the job emitted last while nothing is pending. */
  lemma RequestEnters(cfg: Config, r: Trace, n: nat)
    requires IsRun(cfg, r) && n < |r.events| && r.events[n].event.Request?
    ensures var req := r.events[n].event.req;
            var emitted := if Emissions(r, n) == [] then [] else Last(Emissions(r, n)).batch;
            var dropped := req.jobID != "" && r.At(n).batch == [] && emitted != []
                           && req.jobID == Last(emitted).req.jobID;
            AcceptedIn(r, n + 1) ==
            AcceptedIn(r, n) + if dropped then []
                               else [Accepted(req, match req.requestedAt case Some(t) => t case None => r.events[n].at)]
  {
    JobIdentity(cfg, r, n);
    assert Emissions(r, n) != [] ==> Last(Emissions(r, n)) in Emissions(r, n);
  }

  /** No other event brings a request. */
  lemma OthersBringNothing(r: Trace, n: nat)
    requires n < |r.events| == |r.outcomes| && !r.events[n].event.Request?
    ensures AcceptedIn(r, n + 1) == AcceptedIn(r, n)
  {
  }

  predicate NothingAccepted(r: Trace, k: nat)
    requires k < |r.events| == |r.outcomes|
  {
    AcceptedBy(r.At(k), r.events[k]) == []
  }

  /** Between the loop heads `i` and `j`, either nothing was emitted and the batch is the same, or exactly
      the batch of `i` was. */
  ghost predicate KeptOrEmitted(r: Trace, i: nat, j: nat)
    requires i <= j <= |r.outcomes|
  {
    var before, after := Emissions(r, i), Emissions(r, j);
    || (after == before && r.At(j).batch == r.At(i).batch)
    || (after != [] && after == before + [Last(after)] && Last(after).batch == r.At(i).batch && r.At(j).batch == [])
  }

  /** The planned job ID is kept: while no further request is accepted, the pending batch stays as it
      is, and the next emission after event `i`, if there is one up to `j`, is that batch. */
  lemma {:induction false} PlannedBatchIsEmitted(cfg: Config, r: Trace, i: nat, j: nat)
    requires IsRun(cfg, r) && i <= j <= |r.events| && r.At(i).batch != []
    requires forall k :: i <= k < j ==> NothingAccepted(r, k)
    ensures KeptOrEmitted(r, i, j)
    decreases j
  {
    if i < j {
      PlannedBatchIsEmitted(cfg, r, i, j - 1);
      assert NothingAccepted(r, j - 1);
      QuietEvent(cfg, r, j - 1);
    }
  }

  /** An event that brings no accepted request leaves the batch as it is, or emits it. */
  lemma QuietEvent(cfg: Config, r: Trace, k: nat)
    requires IsRun(cfg, r) && k < |r.events| && NothingAccepted(r, k)
    ensures if r.outcomes[k].emitted.Some? then
              r.outcomes[k].emitted.value.batch == r.At(k).batch != [] && r.At(k + 1).batch == []
            else
              r.At(k + 1).batch == r.At(k).batch
  {
    assert StepAt(cfg, r, k);
    StepConserves(cfg, r.At(k), r.events[k]);
  }

  // ---------------------------------------------------------------- a run that strands a batch

  const WITNESS := Config(10, 100, 20)
  const SLOW := BuildRequested("", false, Origin("", "", ""), map[], None)
  const URGENT := BuildRequested("", true, Origin("", "", ""), map[], None)

  function StrandingRun(): seq<Timed> {
    var free, busy := Env(false, true), Env(true, true);
    [Timed(0, Request(SLOW, free)), Timed(10, QuietTick(busy)), Timed(12, Request(URGENT, free)),
     Timed(25, Request(SLOW, free)), Timed(30, PollTick(false, free))]
  }

  /** The states of the stranding run: a running build is polled for, an urgent request emits before
      the poll, and a new batch is opened. */
  function StrandingState(k: nat): State
    requires k <= 5
  {
    if k == 0 then INITIAL
    else if k == 1 then State([Accepted(SLOW, 0)], false, false, "", Start(10), Start(100), IDLE)
    else if k == 2 then State([Accepted(SLOW, 0)], true, false, "", Timer(true, None), Start(100), Start(30))
    else if k == 3 then State([], false, false, "", Timer(false, None), Timer(false, Some(100)), Start(30))
    else if k == 4 then State([Accepted(SLOW, 25)], false, false, "", Start(35), Start(125), Start(30))
    else State([Accepted(SLOW, 25)], false, false, "", Timer(false, Some(35)), Timer(false, Some(125)), IDLE)
  }

  lemma StrandingStep(k: nat)
    requires k < 5
    ensures var e := StrandingRun()[k];
            && ValidStep(StrandingState(k), e, 0)
            && Step(WITNESS, StrandingState(k), e.at, e.event).state == StrandingState(k + 1)
  {
  }

  /** The loop can strand a batch: a build that was running when the quiet timer fired leaves the poll
      timer armed, an immediate request emits before the poll, and the left-over poll tick then
      silences the timers of the batch that was opened in between. */
  lemma StrandedBatch() returns (r: Trace)
    ensures r.events == StrandingRun() && ValidRun(WITNESS, 0, r)
    ensures r.At(5).batch != [] && !Live(r.At(5))
  {
    var es := StrandingRun();
    r := Trace(es, seq(5, k requires 0 <= k < 5 => Step(WITNESS, StrandingState(k), es[k].at, es[k].event)));
    forall k | 0 <= k < 5 ensures StepAt(WITNESS, r, k) && ValidAt(r, k, 0) {
      StrandingStep(k);
      if k > 0 {
        StrandingStep(k - 1);
      }
      assert r.At(k) == StrandingState(k);
    }
    StrandingStep(4);
  }
}
