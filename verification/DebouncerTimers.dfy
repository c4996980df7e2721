/** When the ticks of the debouncer come: every one exactly one window, delay or interval after the event
    that started its timer, and what it does then. */
module DebouncerTimers {
  import opened Common
  import opened Debouncer
  import opened DebouncerRuns

  // ---------------------------------------------------------------- events of a run

  /** A request that waits for the quiet window. */
  predicate Defers(e: Event) {
    e.Request? && !e.req.immediate
  }

  predicate EmitsAt(r: Trace, k: nat)
    requires k < |r.outcomes|
  {
    r.outcomes[k].emitted.Some?
  }

  /** The event opens a batch with a request that waits. */
  predicate OpensAt(r: Trace, k: nat)
    requires k < |r.events| == |r.outcomes|
  {
    Defers(r.events[k].event) && r.At(k).batch == [] && r.At(k + 1).batch != []
  }

  /** Nothing was emitted after event `i` and before event `k`. */
  ghost predicate NoEmission(r: Trace, i: nat, k: nat)
    requires k <= |r.outcomes|
  {
    forall l :: i < l < k ==> !EmitsAt(r, l)
  }

  // ---------------------------------------------------------------- the quiet timer

  lemma StepQuiet(cfg: Config, s: State, e: Timed)
    ensures var o := Step(cfg, s, e.at, e.event);
            if Defers(e.event) then o.state.quiet == Start(e.at + cfg.quietWindow)
            else (o.state.quiet.Armed() ==> o.state.quiet == s.quiet && o.emitted.None? && !e.event.QuietTick?)
  {
    match e.event
    case Request(req, env) =>
    case QuietTick(env) =>
    case MaxTick(env) =>
    case PollTick(busyAtPoll, env) =>
  }

  /** Event `i` is the last request before `k` that waits, and since then neither a quiet tick nor an
      emission has come. */
  ghost predicate QuietSince(r: Trace, i: nat, k: nat)
    requires k <= |r.events| == |r.outcomes|
  {
    && i < k && Defers(r.events[i].event) && NoEmission(r, i, k)
    && forall l :: i < l < k ==> !Defers(r.events[l].event) && !r.events[l].event.QuietTick?
  }

  lemma {:induction false} QuietStarted(cfg: Config, r: Trace, k: nat) returns (i: nat)
    requires IsRun(cfg, r) && k <= |r.events| && r.At(k).quiet.Armed()
    ensures QuietSince(r, i, k) && r.At(k).quiet == Start(r.events[i].at + cfg.quietWindow)
  {
    if k == 0 {
      assert false;
    }
    var m := k - 1;
    assert StepAt(cfg, r, m);
    StepQuiet(cfg, r.At(m), r.events[m]);
    if Defers(r.events[m].event) {
      i := m;
    } else {
      i := QuietStarted(cfg, r, m);
    }
  }

  /** A quiet tick comes one quiet window after the last request that waits, and not later than the loop
      takes to serve it; nothing was emitted in between. */
  lemma QuietTickTime(cfg: Config, latency: nat, r: Trace, j: nat) returns (i: nat)
    requires ValidRun(cfg, latency, r) && j < |r.events| && r.events[j].event.QuietTick?
    ensures QuietSince(r, i, j)
    ensures r.events[i].at + cfg.quietWindow <= r.events[j].at <= r.events[i].at + cfg.quietWindow + latency
  {
    assert ValidAt(r, j, latency);
    i := QuietStarted(cfg, r, j);
  }

  /** So every request that waits puts the quiet tick off by a whole window. */
  lemma QuietWindowHolds(cfg: Config, latency: nat, r: Trace, i: nat, j: nat)
    requires ValidRun(cfg, latency, r) && i < j < |r.events|
    requires Defers(r.events[i].event) && r.events[j].event.QuietTick?
    ensures r.events[j].at >= r.events[i].at + cfg.quietWindow
  {
    var last := QuietTickTime(cfg, latency, r, j);
  }

  predicate WaitsQuietly(cfg: Config, s: State, since: Time) {
    s.batch != [] && s.quiet == Start(since + cfg.quietWindow)
  }

  lemma StepWaitsQuietly(cfg: Config, s: State, e: Timed, since: Time)
    requires WaitsQuietly(cfg, s, since)
    requires !Defers(e.event) && !Attempts(s, e.event) && !StaleTick(s, e.event)
    ensures WaitsQuietly(cfg, Step(cfg, s, e.at, e.event).state, since)
  {
  }

  lemma {:induction false} WaitsQuietlyUpTo(cfg: Config, r: Trace, i: nat, j: nat)
    requires IsRun(cfg, r) && i < j <= |r.events| && Defers(r.events[i].event) && r.At(i + 1).batch != []
    requires forall k :: i < k < j ==> !Defers(r.events[k].event)
    requires NoAttempt(r, i + 1, j) && NoStaleTick(r, i + 1, j)
    ensures WaitsQuietly(cfg, r.At(j), r.events[i].at)
    decreases j
  {
    var m := j - 1;
    assert StepAt(cfg, r, m);
    if i < m {
      WaitsQuietlyUpTo(cfg, r, i, m);
      assert !AttemptsAt(r, m) && !StaleAt(r, m);
      StepWaitsQuietly(cfg, r.At(m), r.events[m], r.events[i].at);
    } else {
      StepQuiet(cfg, r.At(i), r.events[i]);
    }
  }

  /** A batch is attempted within one quiet window of its last request that waits, unless a stale poll tick
      intervenes. */
  lemma QuietBound(cfg: Config, latency: nat, r: Trace, i: nat, j: nat)
    requires ValidRun(cfg, latency, r) && i < j < |r.events|
    requires Defers(r.events[i].event) && r.At(i + 1).batch != []
    requires forall k :: i < k < j ==> !Defers(r.events[k].event)
    ensures r.events[j].at > r.events[i].at + cfg.quietWindow + latency ==>
              exists k :: i < k < j && (AttemptsAt(r, k) || StaleAt(r, k))
  {
    assert ValidAt(r, j, latency);
    if NoAttempt(r, i + 1, j) && NoStaleTick(r, i + 1, j) {
      WaitsQuietlyUpTo(cfg, r, i, j);
    }
  }

  // ---------------------------------------------------------------- the max-delay timer

  lemma StepMax(cfg: Config, s: State, e: Timed)
    ensures var o := Step(cfg, s, e.at, e.event);
            if Defers(e.event) && s.batch == [] && o.state.batch != [] then o.state.max == Start(e.at + cfg.maxDelay)
            else (o.state.max.Armed() ==> o.state.max == s.max && o.emitted.None? && !e.event.MaxTick?)
  {
    match e.event
    case Request(req, env) =>
    case QuietTick(env) =>
    case MaxTick(env) =>
    case PollTick(busyAtPoll, env) =>
  }

  /** Event `i` opened the batch that is pending before `k`, whose delay has not run out yet. */
  ghost predicate OpenSince(r: Trace, i: nat, k: nat)
    requires k <= |r.events| == |r.outcomes|
  {
    && i < k && OpensAt(r, i) && NoEmission(r, i, k)
    && forall l :: i < l < k ==> !OpensAt(r, l) && !r.events[l].event.MaxTick?
  }

  lemma {:induction false} MaxStarted(cfg: Config, r: Trace, k: nat) returns (i: nat)
    requires IsRun(cfg, r) && k <= |r.events| && r.At(k).max.Armed()
    ensures OpenSince(r, i, k) && r.At(k).max == Start(r.events[i].at + cfg.maxDelay)
  {
    if k == 0 {
      assert false;
    }
    var m := k - 1;
    assert StepAt(cfg, r, m);
    StepMax(cfg, r.At(m), r.events[m]);
    if OpensAt(r, m) {
      i := m;
    } else {
      i := MaxStarted(cfg, r, m);
    }
  }

  /** A max-delay tick comes one maximum delay after the request that opened the pending batch. */
  lemma MaxTickTime(cfg: Config, latency: nat, r: Trace, j: nat) returns (i: nat)
    requires ValidRun(cfg, latency, r) && j < |r.events| && r.events[j].event.MaxTick?
    ensures OpenSince(r, i, j)
    ensures r.events[i].at + cfg.maxDelay <= r.events[j].at <= r.events[i].at + cfg.maxDelay + latency
  {
    assert ValidAt(r, j, latency);
    i := MaxStarted(cfg, r, j);
  }

  // ---------------------------------------------------------------- the poll timer

  lemma StepPolls(cfg: Config, s: State, e: Timed)
    requires LoopInvariant(s) && Enabled(s, e)
    ensures var p := Step(cfg, s, e.at, e.event).state.poll;
            p.Armed() ==>
              || (p == s.poll && !e.event.PollTick?)
              || (p == Start(e.at + cfg.pollInterval) && (Attempts(s, e.event) || e.event.PollTick?)
                  && Step(cfg, s, e.at, e.event).emitted.None?)
  {
    match e.event
    case Request(req, env) =>
    case QuietTick(env) =>
    case MaxTick(env) =>
    case PollTick(busyAtPoll, env) =>
  }

  /** Event `i` left a follow-up to poll for, by an attempt without an emission or a poll tick, and no poll
      tick has come since. */
  ghost predicate PollsSince(r: Trace, i: nat, k: nat)
    requires k <= |r.events| == |r.outcomes|
  {
    && i < k && !EmitsAt(r, i) && (AttemptsAt(r, i) || r.events[i].event.PollTick?)
    && forall l :: i < l < k ==> !r.events[l].event.PollTick?
  }

  lemma {:induction false} PollStarted(cfg: Config, latency: nat, r: Trace, k: nat) returns (i: nat)
    requires ValidRun(cfg, latency, r) && k <= |r.events| && r.At(k).poll.Armed()
    ensures PollsSince(r, i, k) && r.At(k).poll == Start(r.events[i].at + cfg.pollInterval)
  {
    if k == 0 {
      assert false;
    }
    var m := k - 1;
    RunKeepsInvariant(cfg, latency, r, m);
    assert ValidAt(r, m, latency) && StepAt(cfg, r, m);
    StepPolls(cfg, r.At(m), r.events[m]);
    if r.At(k).poll == r.At(m).poll && !r.events[m].event.PollTick? {
      i := PollStarted(cfg, latency, r, m);
    } else {
      i := m;
    }
  }

  /** A poll tick comes one interval after the attempt that failed, or after the poll tick before it. */
  lemma PollTickTime(cfg: Config, latency: nat, r: Trace, j: nat) returns (i: nat)
    requires ValidRun(cfg, latency, r) && j < |r.events| && r.events[j].event.PollTick?
    ensures PollsSince(r, i, j)
    ensures r.events[i].at + cfg.pollInterval <= r.events[j].at <= r.events[i].at + cfg.pollInterval + latency
  {
    assert ValidAt(r, j, latency);
    i := PollStarted(cfg, latency, r, j);
  }

  // ---------------------------------------------------------------- emissions

  /** The event makes the loop try: an immediate request or a tick with a pending batch, or a poll tick with
      a follow-up that is owed and no build running. */
  predicate Tries(r: Trace, k: nat)
    requires k < |r.events| == |r.outcomes|
  {
    match r.events[k].event
    case Request(req, env) => req.immediate && (r.At(k + 1).batch != [] || EmitsAt(r, k))
    case QuietTick(env) => r.At(k).batch != []
    case MaxTick(env) => r.At(k).batch != []
    case PollTick(busyAtPoll, env) => r.At(k).pendingAfterRun && !busyAtPoll
  }

  function CauseOf(e: Event): Cause {
    match e
    case Request(_, _) => Immediate
    case QuietTick(_) => Quiet
    case MaxTick(_) => MaxDelay
    case PollTick(_, _) => AfterRunning
  }

  lemma StepEmits(cfg: Config, s: State, e: Timed)
    requires LoopInvariant(s)
    ensures var o := Step(cfg, s, e.at, e.event);
            && (o.emitted.Some? <==> Attempts(s, e.event) && !e.event.env.busy && e.event.env.published)
            && (o.emitted.Some? ==> o.emitted.value.at == e.at && o.emitted.value.cause == CauseOf(e.event))
            && (e.event.Request? && o.emitted.None? ==>
                  (o.state.batch != [] <==> s.batch != [] || Accepts(s, e.event.req)))
            && (o.state.pendingAfterRun <==> o.emitted.None? && (s.pendingAfterRun || Attempts(s, e.event)))
  {
    match e.event
    case Request(req, env) =>
    case QuietTick(env) =>
    case MaxTick(env) =>
    case PollTick(busyAtPoll, env) =>
  }

  /** An event emits if and only if the loop tries, no build is running and the publication succeeds. The
      emission carries the time of the event and its cause. */
  lemma EmitsIff(cfg: Config, latency: nat, r: Trace, k: nat)
    requires ValidRun(cfg, latency, r) && k < |r.events|
    ensures EmitsAt(r, k) <==> Tries(r, k) && !r.events[k].event.env.busy && r.events[k].event.env.published
    ensures EmitsAt(r, k) ==>
              var e := r.outcomes[k].emitted.value;
              e.at == r.events[k].at && e.cause == CauseOf(r.events[k].event)
    ensures Tries(r, k) <==> AttemptsAt(r, k)
  {
    RunKeepsInvariant(cfg, latency, r, k);
    assert StepAt(cfg, r, k);
    StepEmits(cfg, r.At(k), r.events[k]);
  }

  /** A follow-up is owed exactly if the loop has tried since the last emission. */
  lemma {:induction false} OwedIff(cfg: Config, latency: nat, r: Trace, n: nat)
    requires ValidRun(cfg, latency, r) && n <= |r.events|
    ensures r.At(n).pendingAfterRun <==>
            exists k: nat :: k < n && Tries(r, k) && !EmitsAt(r, k) && NoEmission(r, k, n)
  {
    if n > 0 {
      var m := n - 1;
      OwedIff(cfg, latency, r, m);
      RunKeepsInvariant(cfg, latency, r, m);
      assert StepAt(cfg, r, m);
      StepEmits(cfg, r.At(m), r.events[m]);
      EmitsIff(cfg, latency, r, m);
      if r.At(n).pendingAfterRun && !Tries(r, m) {
        var k: nat :| k < m && Tries(r, k) && !EmitsAt(r, k) && NoEmission(r, k, m);
        assert NoEmission(r, k, n);
      } else if r.At(n).pendingAfterRun {
        assert NoEmission(r, m, n);
      }
      if k: nat :| k < n && Tries(r, k) && !EmitsAt(r, k) && NoEmission(r, k, n) {
        if k < m {
          assert !EmitsAt(r, m) && NoEmission(r, k, m);
        }
      }
    }
  }
}
