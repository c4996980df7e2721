/** Properties of every run of the debouncer: what each loop iteration keeps, when a pending batch
    can be stranded, how long a batch can wait, and what the emitted builds account for. */
module DebouncerRuns {
  import opened Common
  import opened Debouncer

  // ---------------------------------------------------------------- which runs there are

  /** A select case can be taken only if its channel is set and its tick is due. */
  predicate Enabled(s: State, e: Timed) {
    match e.event
    case Request(_, _) => true
    case QuietTick(_) => s.quiet.Armed() && s.quiet.due.value <= e.at
    case MaxTick(_) => s.max.Armed() && s.max.due.value <= e.at
    case PollTick(_, _) => s.poll.Armed() && s.poll.due.value <= e.at
  }

  /** The loop serves a due timer within `latency`: no event is served later than that past it. */
  predicate Prompt(t: Timer, at: Time, latency: nat) {
    t.Armed() ==> at <= t.due.value + latency
  }

  predicate ValidStep(s: State, e: Timed, latency: nat) {
    && Enabled(s, e)
    && Prompt(s.quiet, e.at, latency) && Prompt(s.max, e.at, latency) && Prompt(s.poll, e.at, latency)
  }

  ghost predicate ValidAt(r: Trace, k: nat, latency: nat)
    requires k < |r.events| == |r.outcomes|
  {
    ValidStep(r.At(k), r.events[k], latency)
  }

  /** A run in which time never goes back, only events that are due arrive, and due timers are served. */
  ghost predicate ValidRun(cfg: Config, latency: nat, r: Trace) {
    && cfg.Valid() && IsRun(cfg, r)
    && (forall i, j :: 0 <= i < j < |r.events| ==> r.events[i].at <= r.events[j].at)
    && (forall k :: 0 <= k < |r.events| ==> ValidAt(r, k, latency))
  }

  // ---------------------------------------------------------------- loop invariant and liveness

  /** Holds at every loop head of every run. */
  predicate LoopInvariant(s: State) {
    && (s.pollingAfterRun ==> s.pendingAfterRun)
    && (s.pendingAfterRun ==> s.batch != [] && s.poll.Armed())
    && (s.poll.live ==> s.poll.due.Some?)
    && (s.max.live ==> s.batch != [])
  }

  /** A pending batch has a timer that will wake the loop up. */
  predicate Live(s: State) {
    s.batch != [] ==> s.quiet.Armed() || s.max.Armed() || s.poll.Armed()
  }

  /** A poll tick left over from an earlier batch that arrives while a new batch is pending. */
  predicate StaleTick(s: State, e: Event) {
    e.PollTick? && !s.pendingAfterRun && s.batch != []
  }

  lemma StepKeepsInvariant(cfg: Config, s: State, e: Timed)
    requires LoopInvariant(s) && Enabled(s, e)
    ensures LoopInvariant(Step(cfg, s, e.at, e.event).state)
  {
    match e.event
    case Request(req, env) => RequestKeepsInvariant(cfg, s, req, e.at, env);
    case QuietTick(env) => TickKeepsInvariant(cfg, s.(quiet := s.quiet.Fired()), e.at, Quiet, env);
    case MaxTick(env) => TickKeepsInvariant(cfg, s.(max := s.max.Fired()), e.at, MaxDelay, env);
    case PollTick(busyAtPoll, env) =>
  }

  lemma RequestKeepsInvariant(cfg: Config, s: State, req: BuildRequested, at: Time, env: Env)
    requires LoopInvariant(s)
    ensures LoopInvariant(Step(cfg, s, at, Request(req, env)).state)
  {
  }

  lemma TickKeepsInvariant(cfg: Config, s: State, at: Time, cause: Cause, env: Env)
    requires LoopInvariant(s)
    ensures LoopInvariant(TickStep(cfg, s, at, cause, env).state)
  {
  }

  /** Exactly the stale tick strands a batch, and any request wakes a stranded batch up again. */
  lemma StepKeepsLive(cfg: Config, s: State, e: Timed)
    requires LoopInvariant(s) && Enabled(s, e)
    ensures var s' := Step(cfg, s, e.at, e.event).state;
            && (Live(s) ==> (Live(s') <==> !StaleTick(s, e.event)))
            && (e.event.Request? ==> Live(s'))
  {
  }

  lemma {:induction false} RunKeepsInvariant(cfg: Config, latency: nat, r: Trace, k: nat)
    requires ValidRun(cfg, latency, r) && k <= |r.events|
    ensures LoopInvariant(r.At(k))
  {
    if k > 0 {
      RunKeepsInvariant(cfg, latency, r, k - 1);
      assert ValidAt(r, k - 1, latency) && StepAt(cfg, r, k - 1);
      StepKeepsInvariant(cfg, r.At(k - 1), r.events[k - 1]);
    }
  }

  predicate StaleAt(r: Trace, k: nat)
    requires k < |r.events| == |r.outcomes|
  {
    StaleTick(r.At(k), r.events[k].event)
  }

  ghost predicate NoStaleTick(r: Trace, from: nat, to: nat)
    requires to <= |r.events| == |r.outcomes|
  {
    forall k :: from <= k < to ==> !StaleAt(r, k)
  }

  predicate LiveAt(r: Trace, k: nat)
    requires k <= |r.outcomes|
  {
    Live(r.At(k))
  }

  lemma LiveNext(cfg: Config, latency: nat, r: Trace, k: nat)
    requires ValidRun(cfg, latency, r) && k < |r.events| && LiveAt(r, k)
    ensures LiveAt(r, k + 1) <==> !StaleAt(r, k)
  {
    RunKeepsInvariant(cfg, latency, r, k);
    assert ValidAt(r, k, latency) && StepAt(cfg, r, k);
    StepKeepsLive(cfg, r.At(k), r.events[k]);
  }

  lemma {:induction false} LiveUpTo(cfg: Config, latency: nat, r: Trace, k: nat)
    requires ValidRun(cfg, latency, r) && k <= |r.events| && NoStaleTick(r, 0, k)
    ensures LiveAt(r, k)
  {
    if k > 0 {
      LiveUpTo(cfg, latency, r, k - 1);
      assert !StaleAt(r, k - 1);
      LiveNext(cfg, latency, r, k - 1);
    }
  }

  /** A run keeps every batch live at every loop head if and only if it has no stale poll tick. */
  lemma LiveIffNoStaleTick(cfg: Config, latency: nat, r: Trace)
    requires ValidRun(cfg, latency, r)
    ensures (forall k :: 0 <= k <= |r.events| ==> LiveAt(r, k)) <==> NoStaleTick(r, 0, |r.events|)
  {
    if NoStaleTick(r, 0, |r.events|) {
      forall k | 0 <= k <= |r.events| ensures LiveAt(r, k) {
        LiveUpTo(cfg, latency, r, k);
      }
    }
    if forall k :: 0 <= k <= |r.events| ==> LiveAt(r, k) {
      forall k | 0 <= k < |r.events| ensures !StaleAt(r, k) {
        assert LiveAt(r, k) && LiveAt(r, k + 1);
        LiveNext(cfg, latency, r, k);
      }
    }
  }

  // ---------------------------------------------------------------- how long a batch waits

  /** The step makes an emission attempt: it reaches the build-running check with a pending batch. */
  predicate Attempts(s: State, e: Event) {
    match e
    case Request(req, _) => req.immediate && (Accepts(s, req) || s.batch != [])
    case PollTick(busyAtPoll, _) => s.pendingAfterRun && !busyAtPoll
    case _ => s.batch != []
  }

  /** The step opens a batch with a non-immediate request. */
  predicate Opens(s: State, e: Event) {
    e.Request? && !e.req.immediate && s.batch == [] && Accepts(s, e.req)
  }

  /** A waiting batch: opened at `since` and not attempted since. */
  predicate Waiting(cfg: Config, s: State, since: Time) {
    s.batch != [] && !s.pendingAfterRun && s.max == Start(since + cfg.maxDelay)
  }

  lemma StepKeepsWaiting(cfg: Config, s: State, e: Timed, since: Time)
    requires LoopInvariant(s) && Waiting(cfg, s, since)
    requires !Attempts(s, e.event) && !StaleTick(s, e.event)
    ensures Waiting(cfg, Step(cfg, s, e.at, e.event).state, since)
  {
  }

  lemma OpeningWaits(cfg: Config, s: State, e: Timed)
    requires LoopInvariant(s) && Opens(s, e.event)
    ensures Waiting(cfg, Step(cfg, s, e.at, e.event).state, e.at)
  {
  }

  predicate AttemptsAt(r: Trace, k: nat)
    requires k < |r.events| == |r.outcomes|
  {
    Attempts(r.At(k), r.events[k].event)
  }

  ghost predicate NoAttempt(r: Trace, from: nat, to: nat)
    requires to <= |r.events| == |r.outcomes|
  {
    forall k :: from <= k < to ==> !AttemptsAt(r, k)
  }

  lemma {:induction false} WaitsUpTo(cfg: Config, latency: nat, r: Trace, i: nat, j: nat)
    requires ValidRun(cfg, latency, r) && i < j <= |r.events|
    requires Opens(r.At(i), r.events[i].event) && NoAttempt(r, i + 1, j) && NoStaleTick(r, i + 1, j)
    ensures Waiting(cfg, r.At(j), r.events[i].at)
    decreases j
  {
    RunKeepsInvariant(cfg, latency, r, j - 1);
    assert StepAt(cfg, r, j - 1);
    if i < j - 1 {
      WaitsUpTo(cfg, latency, r, i, j - 1);
      assert !AttemptsAt(r, j - 1) && !StaleAt(r, j - 1);
      StepKeepsWaiting(cfg, r.At(j - 1), r.events[j - 1], r.events[i].at);
    } else {
      OpeningWaits(cfg, r.At(i), r.events[i]);
    }
  }

  /** However many requests follow, a batch opened by a non-immediate request at event `i` is
      attempted before any event later than the maximum delay, unless a stale poll tick intervenes. */
  lemma DelayBound(cfg: Config, latency: nat, r: Trace, i: nat, j: nat)
    requires ValidRun(cfg, latency, r) && i < j < |r.events| && Opens(r.At(i), r.events[i].event)
    ensures r.events[j].at > r.events[i].at + cfg.maxDelay + latency ==>
              exists k :: i < k < j && (AttemptsAt(r, k) || StaleAt(r, k))
  {
    assert ValidAt(r, j, latency);
    if NoAttempt(r, i + 1, j) && NoStaleTick(r, i + 1, j) {
      WaitsUpTo(cfg, latency, r, i, j);
    }
  }

  /** An attempt empties the batch, unless a build is running or the publication fails; then a
      follow-up is due within one poll interval. */
  lemma AttemptSettlesOrDefers(cfg: Config, s: State, e: Timed)
    requires LoopInvariant(s) && Enabled(s, e) && Attempts(s, e.event)
    ensures var o := Step(cfg, s, e.at, e.event);
            if e.event.env.busy || !e.event.env.published then
              o.emitted.None? && o.state.pendingAfterRun && o.state.poll.Armed()
              && o.state.batch == OnlyAccepted(s, e)
            else
              o.emitted.Some? && o.emitted.value.batch == OnlyAccepted(s, e) && o.state.batch == []
  {
  }

  function OnlyAccepted(s: State, e: Timed): seq<Accepted> {
    if e.event.Request? then OnRequest(s, e.event.req, e.at).batch else s.batch
  }

  lemma StepPoll(cfg: Config, s: State, e: Timed)
    ensures var p := Step(cfg, s, e.at, e.event).state.poll;
            && (p == s.poll || p == Start(e.at + cfg.pollInterval) || !p.live)
            && (s.poll.live && !e.event.PollTick? ==> p == s.poll)
  {
    match e.event
    case Request(req, env) =>
      var s1 := OnRequest(s, req, e.at);
      if req.immediate {
        ImmediatePoll(cfg, s1, e.at, env);
      }
    case QuietTick(env) => TickPoll(cfg, s.(quiet := s.quiet.Fired()), e.at, Quiet, env);
    case MaxTick(env) => TickPoll(cfg, s.(max := s.max.Fired()), e.at, MaxDelay, env);
    case PollTick(busyAtPoll, env) =>
  }

  lemma ImmediatePoll(cfg: Config, s: State, at: Time, env: Env)
    ensures PollKept(cfg, s, ImmediateStep(cfg, s, at, env).state, at)
  {
  }

  lemma TickPoll(cfg: Config, s: State, at: Time, cause: Cause, env: Env)
    ensures PollKept(cfg, s, TickStep(cfg, s, at, cause, env).state, at)
  {
  }

  /** The poll timer is left alone, or started because it was not running. */
  predicate PollKept(cfg: Config, s: State, s': State, at: Time) {
    s'.poll == s.poll || (!s.poll.live && s'.poll == Start(at + cfg.pollInterval))
  }

  /** No armed poll timer is further away than one interval. */
  lemma {:induction false} PollWithinInterval(cfg: Config, latency: nat, r: Trace, k: nat)
    requires ValidRun(cfg, latency, r) && 0 < k <= |r.events|
    ensures var p := r.At(k).poll; p.Armed() ==> p.due.value <= r.events[k - 1].at + cfg.pollInterval
  {
    assert StepAt(cfg, r, k - 1);
    StepPoll(cfg, r.At(k - 1), r.events[k - 1]);
    if k > 1 {
      PollWithinInterval(cfg, latency, r, k - 1);
    }
  }

  lemma {:induction false} PollUnchanged(cfg: Config, latency: nat, r: Trace, i: nat, j: nat)
    requires ValidRun(cfg, latency, r) && i <= j <= |r.events| && r.At(i).poll.Armed()
    requires forall k :: i <= k < j ==> !r.events[k].event.PollTick?
    ensures r.At(j).poll == r.At(i).poll
    decreases j
  {
    if i < j {
      PollUnchanged(cfg, latency, r, i, j - 1);
      assert StepAt(cfg, r, j - 1);
      StepPoll(cfg, r.At(j - 1), r.events[j - 1]);
    }
  }

  /** A build that is owed after the running one is re-checked at least once per poll interval. */
  lemma FollowUpBound(cfg: Config, latency: nat, r: Trace, i: nat, j: nat)
    requires ValidRun(cfg, latency, r) && 0 < i <= j < |r.events| && r.At(i).pendingAfterRun
    ensures r.events[j].at > r.events[i - 1].at + cfg.pollInterval + latency ==>
              exists k :: i <= k < j && r.events[k].event.PollTick?
  {
    RunKeepsInvariant(cfg, latency, r, i);
    PollWithinInterval(cfg, latency, r, i);
    assert ValidAt(r, j, latency);
    if forall k :: i <= k < j ==> !r.events[k].event.PollTick? {
      PollUnchanged(cfg, latency, r, i, j);
    }
  }
}
