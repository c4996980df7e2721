/** The build debouncer: a single loop that coalesces bursts of build requests.

    `Step` is the abstract machine. Its only data is the batch of requests accepted since the last
    emission; the class `BuildDebouncer` keeps the running summary of that batch that the source
    keeps (a flag, a counter, the "last" fields and a merged snapshot) and refines the machine. */
module Debouncer {
  import opened Common

  /** In milliseconds. */
  type Time = int

  /** Why and for which repository a build is asked for. */
  datatype Origin = Origin(reason: string, repoURL: string, branch: string)

  datatype BuildRequested = BuildRequested(
    jobID: string, immediate: bool, origin: Origin, snapshot: map<string, string>, requestedAt: Option<Time>)

  /** A request together with the time it is accounted for: its own, or the clock's if it has none. */
  datatype Accepted = Accepted(req: BuildRequested, when: Time)

  datatype Cause = Quiet | MaxDelay | AfterRunning | Immediate

  datatype BuildNow = BuildNow(
    jobID: string, triggeredAt: Time, requestCount: int, lastOrigin: Origin,
    snapshot: map<string, string>, firstRequest: Time, lastRequest: Time, cause: Cause)

  datatype Config = Config(quietWindow: Time, maxDelay: Time, pollInterval: Time) {
    predicate Valid() {
      quietWindow > 0 && maxDelay > 0 && pollInterval > 0
    }
  }

  const DEFAULT_POLL_INTERVAL: Time := 250

  datatype ConfigError = QuietWindowNotPositive | MaxDelayNotPositive

  /** Windows that are not positive are refused; a missing poll interval has a default. */
  function CheckConfig(quietWindow: Time, maxDelay: Time, pollInterval: Time): (r: Result<Config, ConfigError>)
    ensures r.Ok? <==> quietWindow > 0 && maxDelay > 0
    ensures r.Ok? ==> r.value.Valid() && r.value.quietWindow == quietWindow && r.value.maxDelay == maxDelay
    ensures r.Ok? ==> r.value.pollInterval == if pollInterval > 0 then pollInterval else 250
    ensures r.Err? ==> r.error == if quietWindow <= 0 then QuietWindowNotPositive else MaxDelayNotPositive
  {
    if quietWindow <= 0 then Err(QuietWindowNotPositive)
    else if maxDelay <= 0 then Err(MaxDelayNotPositive)
    else Ok(Config(quietWindow, maxDelay, if pollInterval <= 0 then DEFAULT_POLL_INTERVAL else pollInterval))
  }

  /** A timer and the loop's channel variable for it. `due` is the running clock or an undelivered
      tick; a delivered tick leaves `None`. A nil channel (`live` false) hides the clock. */
  datatype Timer = Timer(live: bool, due: Option<Time>) {
    predicate Armed() {
      live && due.Some?
    }
    function Hide(): Timer {
      this.(live := false)
    }
    function Fired(): Timer {
      this.(due := None)
    }
  }

  function Start(due: Time): Timer {
    Timer(true, Some(due))
  }

  /** What the environment answers during one loop iteration. */
  datatype Env = Env(busy: bool, published: bool)

  datatype Event =
    | Request(req: BuildRequested, env: Env)
    | QuietTick(env: Env)
    | MaxTick(env: Env)
    | PollTick(busyAtPoll: bool, env: Env)

  datatype Timed = Timed(at: Time, event: Event)

  datatype State = State(
    batch: seq<Accepted>, pendingAfterRun: bool, pollingAfterRun: bool, lastEmitted: string,
    quiet: Timer, max: Timer, poll: Timer)

  const IDLE := Timer(false, None)
  const INITIAL := State([], false, false, "", IDLE, IDLE, IDLE)

  // ---------------------------------------------------------------- what an emission reports

  /** An emission of the machine: the whole batch, when and why. */
  datatype Emission = Emission(batch: seq<Accepted>, at: Time, cause: Cause)

  /** The value that the last request naming `k` with a non-empty value gives it. */
  function Winner(batch: seq<Accepted>, k: string): Option<string> {
    if batch == [] then
      None
    else if Names(Last(batch).req.snapshot, k) then
      Some(Last(batch).req.snapshot[k])
    else
      Winner(batch[..|batch| - 1], k)
  }

  predicate Names(snapshot: map<string, string>, k: string) {
    k != "" && k in snapshot && snapshot[k] != ""
  }

  function Lookup(m: map<string, string>, k: string): Option<string> {
    if k in m then Some(m[k]) else None
  }

  /** A merged snapshot: every key has its winning value, and no other key is present. */
  ghost predicate LaterWins(m: map<string, string>, batch: seq<Accepted>) {
    forall k :: Lookup(m, k) == Winner(batch, k)
  }

  /** The published event describes exactly the emitted batch. */
  ghost predicate Reports(now: BuildNow, e: Emission) {
    && e.batch != []
    && now.requestCount == |e.batch|
    && now.jobID == Last(e.batch).req.jobID
    && now.lastOrigin == Last(e.batch).req.origin
    && now.firstRequest == e.batch[0].when
    && now.lastRequest == Last(e.batch).when
    && now.triggeredAt == e.at
    && now.cause == e.cause
    && LaterWins(now.snapshot, e.batch)
  }

  ghost predicate ReportsOption(now: Option<BuildNow>, e: Option<Emission>) {
    (now.Some? <==> e.Some?) && (now.Some? ==> Reports(now.value, e.value))
  }

  /** The range loop over a request's snapshot: its entries come in any order. */
  method MergeSnapshot(snapshot: map<string, string>, entries: map<string, string>)
    returns (merged: map<string, string>)
    ensures forall k :: Lookup(merged, k) ==
                        if Names(entries, k) then Some(entries[k]) else Lookup(snapshot, k)
    ensures forall k :: k in merged <==> k in snapshot || (k != "" && k in entries && entries[k] != "")
    ensures forall k :: k in merged ==>
              merged[k] == if k != "" && k in entries && entries[k] != "" then entries[k] else snapshot[k]
  {
    var rest := entries.Keys;
    merged := snapshot;
    while rest != {}
      invariant rest <= entries.Keys
      invariant forall k :: Lookup(merged, k) ==
                            if Names(entries, k) && k !in rest then Some(entries[k]) else Lookup(snapshot, k)
    {
      var k :| k in rest;
      rest := rest - {k};
      if k != "" && entries[k] != "" {
        merged := merged[k := entries[k]];
      }
    }
    MergedEntries(snapshot, entries, merged);
  }

  lemma MergedEntries(snapshot: map<string, string>, entries: map<string, string>, merged: map<string, string>)
    requires forall k :: Lookup(merged, k) == if Names(entries, k) then Some(entries[k]) else Lookup(snapshot, k)
    ensures forall k :: k in merged <==> k in snapshot || (k != "" && k in entries && entries[k] != "")
    ensures forall k :: k in merged ==>
              merged[k] == if k != "" && k in entries && entries[k] != "" then entries[k] else snapshot[k]
  {
    forall k
      ensures (k in merged <==> Lookup(merged, k).Some?) && (k in merged ==> Lookup(merged, k).value == merged[k])
    {
      assert Lookup(merged, k) == if Names(entries, k) then Some(entries[k]) else Lookup(snapshot, k);
    }
  }

  lemma LaterWinsAppend(m: map<string, string>, batch: seq<Accepted>, a: Accepted, merged: map<string, string>)
    requires LaterWins(m, batch)
    requires forall k :: Lookup(merged, k) ==
                         if Names(a.req.snapshot, k) then Some(a.req.snapshot[k]) else Lookup(m, k)
    ensures LaterWins(merged, batch + [a])
  {
    var grown := batch + [a];
    assert grown[..|grown| - 1] == batch;
  }

  // ---------------------------------------------------------------- the machine

  predicate Accepts(s: State, req: BuildRequested) {
    !(req.jobID != "" && req.jobID == s.lastEmitted && s.batch == [])
  }

  function Stamp(req: BuildRequested, at: Time): Accepted {
    Accepted(req, if req.requestedAt.Some? then req.requestedAt.value else at)
  }

  function OnRequest(s: State, req: BuildRequested, at: Time): State {
    if Accepts(s, req) then s.(batch := s.batch + [Stamp(req, at)]) else s
  }

  datatype Attempt = Attempt(settled: bool, state: State, emitted: Option<Emission>)

  function TryEmit(s: State, at: Time, cause: Cause, env: Env): Attempt {
    if s.batch == [] then
      Attempt(true, s, None)
    else if env.busy then
      Attempt(false, s.(pendingAfterRun := true), None)
    else if !env.published then
      Attempt(false, s.(pendingAfterRun := true, pollingAfterRun := false), None)
    else
      Attempt(true,
              s.(batch := [], pendingAfterRun := false, pollingAfterRun := false,
                 lastEmitted := Last(s.batch).req.jobID),
              Some(Emission(s.batch, at, cause)))
  }

  function TryEmitAfterRunning(s: State, at: Time, busyAtPoll: bool, env: Env): Attempt {
    if !s.pendingAfterRun then
      Attempt(true, s, None)
    else
      var polling := s.(pollingAfterRun := true);
      if busyAtPoll then Attempt(false, polling, None) else TryEmit(polling, at, AfterRunning, env)
  }

  function ArmPoll(cfg: Config, s: State, at: Time): State {
    if s.pendingAfterRun && !s.pollingAfterRun && !s.poll.live then
      s.(poll := Start(at + cfg.pollInterval))
    else
      s
  }

  datatype Outcome = Outcome(state: State, emitted: Option<Emission>)

  /** One iteration of the select loop at time `at`. */
  function Step(cfg: Config, s: State, at: Time, e: Event): Outcome {
    match e
    case Request(req, env) =>
      var s1 := OnRequest(s, req, at);
      if req.immediate then ImmediateStep(cfg, s1, at, env) else Outcome(Deferred(cfg, s1, at), None)
    case QuietTick(env) => TickStep(cfg, s.(quiet := s.quiet.Fired()), at, Quiet, env)
    case MaxTick(env) => TickStep(cfg, s.(max := s.max.Fired()), at, MaxDelay, env)
    case PollTick(busyAtPoll, env) => PollStep(cfg, s.(poll := s.poll.Fired()), at, busyAtPoll, env)
  }

  function ImmediateStep(cfg: Config, s: State, at: Time, env: Env): Outcome {
    var a := TryEmit(s, at, Immediate, env);
    if a.settled then Outcome(Settle(a), a.emitted) else Outcome(ArmPoll(cfg, a.state, at), None)
  }

  /** A request that waits restarts the quiet timer, and the first one of a batch the other. */
  function Deferred(cfg: Config, s: State, at: Time): State {
    var waiting := s.(quiet := Start(at + cfg.quietWindow));
    ArmPoll(cfg, if |s.batch| == 1 then waiting.(max := Start(at + cfg.maxDelay)) else waiting, at)
  }

  function TickStep(cfg: Config, s: State, at: Time, cause: Cause, env: Env): Outcome {
    var a := TryEmit(s, at, cause, env);
    Outcome(ArmPoll(cfg, Settle(a), at), a.emitted)
  }

  function PollStep(cfg: Config, s: State, at: Time, busyAtPoll: bool, env: Env): Outcome {
    var a := TryEmitAfterRunning(s, at, busyAtPoll, env);
    if a.settled then
      var calm := Settle(a);
      Outcome(calm.(poll := calm.poll.Hide()), a.emitted)
    else
      Outcome(a.state.(poll := Start(at + cfg.pollInterval)), None)
  }

  /** A settled attempt drops the quiet and max-delay channels. */
  function Settle(a: Attempt): State {
    if a.settled then a.state.(quiet := a.state.quiet.Hide(), max := a.state.max.Hide()) else a.state
  }

  // ---------------------------------------------------------------- the implementation

  class BuildDebouncer {
    const cfg: Config

    var pending: bool
    var pendingAfterRun: bool
    var pollingAfterRun: bool
    var firstRequestAt: Time
    var lastRequestAt: Time
    var lastOrigin: Origin
    var lastJobID: string
    var lastEmittedJobID: string
    var requestCount: int
    var snapshot: map<string, string>

    // variables of the loop
    var quiet: Timer
    var max: Timer
    var poll: Timer

    /** The accepted requests that the fields above summarise. */
    ghost var batch: seq<Accepted>

    ghost predicate Valid()
      reads this
    {
      && cfg.Valid()
      && (pending <==> batch != [])
      && (pending ==> Summarises() && LaterWins(snapshot, batch))
      && (pendingAfterRun ==> pending)
    }

    /** The counter, the times and the "last" fields describe the batch. */
    ghost predicate Summarises()
      reads this
    {
      && batch != []
      && requestCount == |batch|
      && firstRequestAt == batch[0].when
      && lastRequestAt == Last(batch).when
      && lastOrigin == Last(batch).req.origin
      && lastJobID == Last(batch).req.jobID
    }

    ghost function View(): State
      reads this
    {
      State(batch, pendingAfterRun, pollingAfterRun, lastEmittedJobID, quiet, max, poll)
    }

    constructor (cfg: Config)
      requires cfg.Valid()
      ensures Valid() && View() == INITIAL && this.cfg == cfg
    {
      this.cfg := cfg;
      pending, pendingAfterRun, pollingAfterRun := false, false, false;
      firstRequestAt, lastRequestAt, requestCount := 0, 0, 0;
      lastOrigin, lastJobID, lastEmittedJobID := Origin("", "", ""), "", "";
      snapshot := map[];
      quiet, max, poll := IDLE, IDLE, IDLE;
      batch := [];
    }

    /** The job ID that the next emission will carry, if a batch is pending and its ID is known. */
    method PlannedJobID() returns (id: string, ok: bool)
      requires Valid()
      ensures ok <==> View().batch != [] && Last(View().batch).req.jobID != ""
      ensures id == if ok then Last(View().batch).req.jobID else ""
    {
      if !pending && !pendingAfterRun {
        return "", false;
      }
      if lastJobID == "" {
        return "", false;
      }
      return lastJobID, true;
    }

    method AcceptRequest(req: BuildRequested, now: Time)
      requires Valid()
      modifies `pending, `firstRequestAt, `lastRequestAt, `lastOrigin, `lastJobID, `requestCount, `snapshot, `batch
      ensures Valid()
      ensures batch == if Accepts(old(View()), req) then old(batch) + [Stamp(req, now)] else old(batch)
    {
      if req.jobID != "" && req.jobID == lastEmittedJobID && !pending {
        return;
      }
      var when := if req.requestedAt.Some? then req.requestedAt.value else now;
      if !pending {
        pending := true;
        firstRequestAt := when;
        requestCount := 0;
        snapshot := map[];
      }
      lastRequestAt, lastOrigin, lastJobID := when, req.origin, req.jobID;
      requestCount := requestCount + 1;
      var merged := MergeSnapshot(snapshot, req.snapshot);
      LaterWinsAppend(snapshot, batch, Accepted(req, when), merged);
      snapshot := merged;
      batch := batch + [Accepted(req, when)];
    }

    predicate ShouldStartMaxTimer()
      reads this
    {
      pending && requestCount == 1
    }

    predicate ShouldPollAfterRun()
      reads this
    {
      pendingAfterRun && !pollingAfterRun
    }

    method Emit(now: Time, cause: Cause, env: Env) returns (settled: bool, emitted: Option<BuildNow>)
      requires Valid()
      modifies `pending, `pendingAfterRun, `pollingAfterRun, `lastEmittedJobID, `snapshot, `batch
      ensures Valid()
      ensures var a := TryEmit(old(View()), now, cause, env);
              a.settled == settled && a.state == View() && ReportsOption(emitted, a.emitted)
    {
      if !pending {
        return true, None;
      }
      if env.busy {
        pendingAfterRun := true;
        return false, None;
      }
      var evt := BuildNow(lastJobID, now, requestCount, lastOrigin, snapshot, firstRequestAt, lastRequestAt, cause);
      if !env.published {
        pendingAfterRun, pollingAfterRun := true, false;
        return false, None;
      }
      pending, pendingAfterRun, pollingAfterRun := false, false, false;
      lastEmittedJobID := lastJobID;
      snapshot := map[];
      batch := [];
      return true, Some(evt);
    }

    method EmitAfterRunning(now: Time, busyAtPoll: bool, env: Env)
      returns (settled: bool, emitted: Option<BuildNow>)
      requires Valid()
      modifies `pending, `pendingAfterRun, `pollingAfterRun, `lastEmittedJobID, `snapshot, `batch
      ensures Valid()
      ensures var a := TryEmitAfterRunning(old(View()), now, busyAtPoll, env);
              a.settled == settled && a.state == View() && ReportsOption(emitted, a.emitted)
    {
      if !pendingAfterRun {
        return true, None;
      }
      pollingAfterRun := true;
      if busyAtPoll {
        return false, None;
      }
      settled, emitted := Emit(now, AfterRunning, env);
    }

    method StartPolling(now: Time)
      requires Valid()
      modifies `poll
      ensures Valid() && View() == ArmPoll(cfg, old(View()), now)
    {
      if ShouldPollAfterRun() && !poll.live {
        poll := Start(now + cfg.pollInterval);
      }
    }

    method HandleRequest(req: BuildRequested, now: Time, env: Env) returns (emitted: Option<BuildNow>)
      requires Valid()
      modifies this
      ensures Valid()
      ensures var o := Step(cfg, old(View()), now, Request(req, env));
              o.state == View() && ReportsOption(emitted, o.emitted)
    {
      AcceptRequest(req, now);
      if req.immediate {
        emitted := EmitAtOnce(now, env);
      } else {
        emitted := None;
        Defer(now);
      }
    }

    method EmitAtOnce(now: Time, env: Env) returns (emitted: Option<BuildNow>)
      requires Valid()
      modifies this
      ensures Valid()
      ensures var o := ImmediateStep(cfg, old(View()), now, env);
              o.state == View() && ReportsOption(emitted, o.emitted)
    {
      var settled;
      settled, emitted := Emit(now, Immediate, env);
      if settled {
        quiet, max := quiet.Hide(), max.Hide();
        return;
      }
      StartPolling(now);
    }

    method Defer(now: Time)
      requires Valid()
      modifies `quiet, `max, `poll
      ensures Valid() && View() == Deferred(cfg, old(View()), now)
    {
      quiet := Start(now + cfg.quietWindow);
      if ShouldStartMaxTimer() {
        max := Start(now + cfg.maxDelay);
      }
      StartPolling(now);
    }

    method HandleQuiet(now: Time, env: Env) returns (emitted: Option<BuildNow>)
      requires Valid()
      modifies this
      ensures Valid()
      ensures var o := Step(cfg, old(View()), now, QuietTick(env));
              o.state == View() && ReportsOption(emitted, o.emitted)
    {
      quiet := quiet.Fired();
      emitted := Tick(now, Quiet, env);
    }

    /** What both ticks do: an attempt, and polling if it leaves a follow-up. */
    method Tick(now: Time, cause: Cause, env: Env) returns (emitted: Option<BuildNow>)
      requires Valid()
      modifies this
      ensures Valid()
      ensures var o := TickStep(cfg, old(View()), now, cause, env);
              o.state == View() && ReportsOption(emitted, o.emitted)
    {
      var settled;
      settled, emitted := Emit(now, cause, env);
      if settled {
        quiet, max := quiet.Hide(), max.Hide();
      }
      StartPolling(now);
    }

    method HandleMax(now: Time, env: Env) returns (emitted: Option<BuildNow>)
      requires Valid()
      modifies this
      ensures Valid()
      ensures var o := Step(cfg, old(View()), now, MaxTick(env));
              o.state == View() && ReportsOption(emitted, o.emitted)
    {
      max := max.Fired();
      emitted := Tick(now, MaxDelay, env);
    }

    method HandlePoll(now: Time, busyAtPoll: bool, env: Env) returns (emitted: Option<BuildNow>)
      requires Valid()
      modifies this
      ensures Valid()
      ensures var o := Step(cfg, old(View()), now, PollTick(busyAtPoll, env));
              o.state == View() && ReportsOption(emitted, o.emitted)
    {
      poll := poll.Fired();
      emitted := Poll(now, busyAtPoll, env);
    }

    method Poll(now: Time, busyAtPoll: bool, env: Env) returns (emitted: Option<BuildNow>)
      requires Valid()
      modifies this
      ensures Valid()
      ensures var o := PollStep(cfg, old(View()), now, busyAtPoll, env);
              o.state == View() && ReportsOption(emitted, o.emitted)
    {
      var settled;
      settled, emitted := EmitAfterRunning(now, busyAtPoll, env);
      if settled {
        poll, quiet, max := poll.Hide(), quiet.Hide(), max.Hide();
        return;
      }
      PollAgain(now);
    }

    method PollAgain(now: Time)
      requires Valid()
      modifies `poll
      ensures Valid() && View() == old(View()).(poll := Start(now + cfg.pollInterval))
    {
      poll := Start(now + cfg.pollInterval);
      StartPolling(now);
    }

    /** One iteration of the select loop. */
    method Handle(e: Timed) returns (emitted: Option<BuildNow>)
      requires Valid()
      modifies this
      ensures Valid()
      ensures var o := Step(cfg, old(View()), e.at, e.event);
              o.state == View() && ReportsOption(emitted, o.emitted)
    {
      match e.event
      case Request(req, env) => emitted := HandleRequest(req, e.at, env);
      case QuietTick(env) => emitted := HandleQuiet(e.at, env);
      case MaxTick(env) => emitted := HandleMax(e.at, env);
      case PollTick(busyAtPoll, env) => emitted := HandlePoll(e.at, busyAtPoll, env);
    }

    /** The select loop, over the events that its cases receive. The ghost result is what the machine does. */
    method Run(es: seq<Timed>) returns (emitted: seq<BuildNow>, ghost run: Trace)
      requires Valid() && View() == INITIAL
      modifies this
      ensures Valid() && IsRun(cfg, run) && run.events == es && View() == run.At(|es|)
      ensures |emitted| == |Emissions(run, |es|)|
      ensures forall i :: 0 <= i < |emitted| ==> Reports(emitted[i], Emissions(run, |es|)[i])
    {
      emitted := [];
      run := Trace([], []);
      for k := 0 to |es|
        invariant Valid() && Follows(cfg, run, es, k, emitted) && View() == run.At(k)
      {
        emitted, run := RunNext(es, k, emitted, run);
      }
      assert es[..|es|] == es;
    }

    /** One more iteration, and what it publishes. */
    method RunNext(es: seq<Timed>, k: nat, emitted: seq<BuildNow>, ghost run: Trace)
      returns (emitted': seq<BuildNow>, ghost run': Trace)
      requires Valid() && k < |es| && Follows(cfg, run, es, k, emitted) && View() == run.At(k)
      modifies this
      ensures Valid() && Follows(cfg, run', es, k + 1, emitted') && View() == run'.At(k + 1)
    {
      ghost var o := Step(cfg, View(), es[k].at, es[k].event);
      var out := Handle(es[k]);
      FollowsNext(cfg, run, es, k, emitted, o, out);
      emitted' := if out.Some? then emitted + [out.value] else emitted;
      run' := run.Extended(es[k], o);
    }
  }

  // ---------------------------------------------------------------- runs

  /** The events of a run and what each of them led to. */
  datatype Trace = Trace(events: seq<Timed>, outcomes: seq<Outcome>) {
    /** The state before event `k`. */
    function At(k: nat): State
      requires k <= |outcomes|
    {
      if k == 0 then INITIAL else outcomes[k - 1].state
    }

    function Extended(e: Timed, o: Outcome): Trace {
      Trace(events + [e], outcomes + [o])
    }
  }

  /** Event `k` led to what the machine does. */
  ghost predicate StepAt(cfg: Config, r: Trace, k: nat)
    requires k < |r.events| == |r.outcomes|
  {
    r.outcomes[k] == Step(cfg, r.At(k), r.events[k].at, r.events[k].event)
  }

  /** A run of the machine; every sequence of events has exactly one. */
  ghost predicate IsRun(cfg: Config, r: Trace) {
    |r.events| == |r.outcomes| && forall k :: 0 <= k < |r.events| ==> StepAt(cfg, r, k)
  }

  /** What the first `n` events emitted. */
  function Emissions(r: Trace, n: nat): seq<Emission>
    requires n <= |r.outcomes|
  {
    if n == 0 then []
    else if r.outcomes[n - 1].emitted.Some? then Emissions(r, n - 1) + [r.outcomes[n - 1].emitted.value]
    else Emissions(r, n - 1)
  }

  lemma ExtendedRun(cfg: Config, r: Trace, e: Timed, o: Outcome)
    requires IsRun(cfg, r) && o == Step(cfg, r.At(|r.events|), e.at, e.event)
    ensures var longer, n := r.Extended(e, o), |r.events|;
            && IsRun(cfg, longer) && longer.At(n) == r.At(n) && longer.At(n + 1) == o.state
            && Emissions(longer, n) == Emissions(r, n)
  {
    var longer := r.Extended(e, o);
    forall k | 0 <= k < |longer.events| ensures StepAt(cfg, longer, k) {
      if k < |r.events| {
        assert StepAt(cfg, r, k) && longer.At(k) == r.At(k);
      }
    }
    SamePrefix(r, longer, |r.events|);
  }

  /** The run is that of the first `k` events, and what was published reports its emissions. */
  ghost predicate Follows(cfg: Config, run: Trace, es: seq<Timed>, k: nat, emitted: seq<BuildNow>) {
    && k <= |es| && IsRun(cfg, run) && run.events == es[..k]
    && |emitted| == |Emissions(run, k)|
    && forall i :: 0 <= i < |emitted| ==> Reports(emitted[i], Emissions(run, k)[i])
  }

  lemma FollowsNext(cfg: Config, run: Trace, es: seq<Timed>, k: nat, emitted: seq<BuildNow>, o: Outcome,
                    out: Option<BuildNow>)
    requires k < |es| && Follows(cfg, run, es, k, emitted)
    requires o == Step(cfg, run.At(k), es[k].at, es[k].event) && ReportsOption(out, o.emitted)
    ensures var next := run.Extended(es[k], o);
            && Follows(cfg, next, es, k + 1, if out.Some? then emitted + [out.value] else emitted)
            && next.At(k + 1) == o.state
  {
    ExtendedRun(cfg, run, es[k], o);
    assert es[..k + 1] == es[..k] + [es[k]];
  }

  lemma {:induction false} SamePrefix(r: Trace, longer: Trace, n: nat)
    requires n <= |r.outcomes| && n <= |longer.outcomes|
    requires forall k :: 0 <= k < n ==> r.outcomes[k] == longer.outcomes[k]
    ensures r.At(n) == longer.At(n) && Emissions(r, n) == Emissions(longer, n)
  {
    if n > 0 {
      SamePrefix(r, longer, n - 1);
    }
  }
}
