/** The connections of the live-reload hub: each greets its client, serves it in a loop, and ends. */
module LiveReloadConnections {
  import opened Common
  import opened LiveReload
  import opened LiveReloadRuns

  // ---------------------------------------------------------------- the buffered stream

  const BUFFER_SIZE := 4096

  type Filling = n: nat | n <= BUFFER_SIZE

  /** Go's buffered writer: it keeps what fits, and an error of the stream below sticks. */
  datatype Writer = Writer(buffered: Filling, failed: bool) {
    /** Text that does not fit is passed on, which succeeds if the stream below is `sound`; a remainder may
        stay in the buffer. */
    function Write(text: string, sound: bool, left: Filling): Writer {
      if failed then this
      else if buffered + |text| <= BUFFER_SIZE then Writer(buffered + |text|, false)
      else Writer(left, !sound)
    }

    function Flush(sound: bool): Writer {
      if failed || buffered == 0 then this else Writer(0, !sound)
    }
  }

  const FRESH := Writer(0, false)
  const CONNECTED := ": connected\n\n"
  const PING := ": ping\n\n"

  function HashLine(hash: string): string {
    "data: {\"hash\":\"" + hash + "\"}\n\n"
  }

  /** How the stream below behaves during one action: whether it is sound, and what stays buffered. */
  datatype Stream = Stream(sound: bool, left: Filling)

  /** The greeting before it is flushed. */
  function Greeting(current: string, below: Stream): Writer {
    var first := FRESH.Write(CONNECTED, below.sound, below.left);
    if first.failed || current == "" then first else first.Write(HashLine(current), below.sound, below.left)
  }

  function Told(w: Writer, text: string, below: Stream): Writer {
    var written := w.Write(text, below.sound, below.left);
    if written.failed then written else written.Flush(below.sound)
  }

  /** While the stream is sound, everything that a connection is told is passed on; a failure is for good. */
  lemma ToldIsPassedOn(w: Writer, text: string, below: Stream)
    ensures !w.failed && below.sound ==> Told(w, text, below) == FRESH
    ensures w.failed ==> Told(w, text, below) == w
    ensures Told(w, text, below).failed ==> w.failed || !below.sound
  {
  }

  /** The greeting fits into the buffer. */
  predicate Fits(current: string) {
    current == "" || |CONNECTED| + |HashLine(current)| <= BUFFER_SIZE
  }

  const MAX_HASH := 4064

  lemma FitsIff(current: string)
    ensures Fits(current) <==> |current| <= MAX_HASH
  {
  }

  /** A greeting fails exactly if it does not fit and the stream below fails. */
  lemma GreetingFailsIff(current: string, below: Stream)
    ensures Greeting(current, below).failed <==> !Fits(current) && !below.sound
  {
  }

  // ---------------------------------------------------------------- connections

  datatype Phase = Greets | Serves(writer: Writer) | Ended

  /** `current` is the hash that it was given on registration. */
  datatype Connection = Connection(current: string, phase: Phase)

  /** Connection `c` serves client `c` of the hub. */
  datatype System = System(hub: Hub, connections: seq<Connection>)

  const START := System(EMPTY, [])

  datatype Action =
    | Elsewhere(event: Event)
    | Connect
    | Greet(c: nat, below: Stream)
    | Ping(c: nat, below: Stream)
    | Deliver(c: nat, below: Stream)
    | Disconnect(c: nat)
    | SeeDone(c: nat)

  /** What happens outside of the connections' own code: arrivals, broadcasts and the shutdown. */
  predicate IsElsewhere(e: Event) {
    e.Admit? || e.Announce? || e.Offer? || e.Drop? || e.BeginShutdown? || e.Close?
  }

  predicate Serving(s: System, c: nat) {
    c < |s.connections| && s.connections[c].phase.Serves?
  }

  predicate Possible(s: System, a: Action)
  {
    && |s.connections| == |s.hub.made|
    && match a
       case Elsewhere(e) => IsElsewhere(e) && Enabled(s.hub, e)
       case Connect => Enabled(s.hub, Register)
       case Greet(c, _) => c < |s.connections| && s.connections[c].phase.Greets?
       case Ping(c, _) => Serving(s, c)
       case Deliver(c, _) => Serving(s, c) && Enabled(s.hub, Receive(c))
       case Disconnect(c) => Serving(s, c)
       case SeeDone(c) => Serving(s, c) && s.hub.made[c].closes > 0
  }

  /** The event of the hub that an action is, if it is one. */
  function HubEvent(a: Action, s: System): Option<Event>
    requires Possible(s, a)
  {
    match a
    case Elsewhere(e) => Some(e)
    case Connect => Some(Register)
    case Greet(_, _) => None
    case Ping(_, _) => None
    case Deliver(c, _) => Some(Receive(c))
    case Disconnect(c) => Some(Leave(s.hub.made[c].id))
    case SeeDone(c) => Some(Leave(s.hub.made[c].id))
  }

  function In(s: System, c: nat, phase: Phase): seq<Connection>
    requires c < |s.connections|
  {
    s.connections[c := s.connections[c].(phase := phase)]
  }

  /** A greeting that fails ends the connection at once, and the client is not removed. */
  function AfterGreeting(current: string, below: Stream): Phase {
    var w := Greeting(current, below);
    if w.failed then Ended else Serves(w.Flush(below.sound))
  }

  function Connections(s: System, a: Action): seq<Connection>
    requires Possible(s, a) && Handles(s.hub)
  {
    match a
    case Elsewhere(_) => s.connections
    case Connect => s.connections + [Connection(LastHash(s.hub), Greets)]
    case Greet(c, below) => In(s, c, AfterGreeting(s.connections[c].current, below))
    case Ping(c, below) => In(s, c, Serves(Told(s.connections[c].phase.writer, PING, below)))
    case Deliver(c, below) => In(s, c, Serves(Told(s.connections[c].phase.writer, HashLine(NextHash(s.hub, c)), below)))
    case Disconnect(c) => In(s, c, Ended)
    case SeeDone(c) => In(s, c, Ended)
  }

  /** The hash that the client takes from its channel. */
  function NextHash(h: Hub, c: nat): string
    requires Enabled(h, Receive(c))
  {
    var k := h.made[c].sent[h.made[c].read];
    if k < |h.announced| then h.announced[k] else ""
  }

  function Act(s: System, a: Action): (r: System)
    requires Handles(s.hub)
    ensures Handles(r.hub)
  {
    if !Possible(s, a) then s
    else
      var e := HubEvent(a, s);
      System(if e.None? then s.hub else Next(s.hub, e.value), Connections(s, a))
  }

  function Run(s: System, actions: seq<Action>): (r: System)
    requires Handles(s.hub)
    ensures Handles(r.hub)
    decreases |actions|
  {
    if actions == [] then s else Run(Act(s, actions[0]), actions[1..])
  }

  // ---------------------------------------------------------------- the hub sees one of its runs

  /** Whatever the connections do, the hub goes through one of its own runs, so that everything that is
      said about those holds here. */
  lemma {:induction false} HubRun(s: System, actions: seq<Action>) returns (es: seq<Event>)
    requires Handles(s.hub)
    ensures Run(s, actions).hub == After(s.hub, es)
    decreases |actions|
  {
    es := [];
    if actions != [] {
      var a := actions[0];
      es := HubRun(Act(s, a), actions[1..]);
      if Possible(s, a) && HubEvent(a, s).Some? {
        var rest := es;
        es := [HubEvent(a, s).value] + rest;
        assert es[1..] == rest;
      }
    }
  }

  // ---------------------------------------------------------------- ended connections

  /** The ended connection is out of the map, or it could not greet its client. */
  ghost predicate Out(s: System, c: nat)
    requires c < |s.connections|
  {
    s.connections[c].phase.Ended? ==> c !in s.hub.clients || !Fits(s.connections[c].current)
  }

  ghost predicate Orderly(s: System) {
    && ClosedOnce(s.hub) && |s.connections| == |s.hub.made|
    && (forall c :: 0 <= c < |s.connections| ==>
          Out(s, c) && (s.connections[c].current == "" || s.connections[c].current in s.hub.announced))
  }

  lemma HubStays(h: Hub, e: Event)
    requires ClosedOnce(h)
    ensures var r := Next(h, e);
            && ClosedOnce(r) && h.announced <= r.announced
            && |r.made| == |h.made| + (if e.Register? && Enabled(h, e) then 1 else 0)
            && (forall c :: 0 <= c < |h.made| && c in r.clients ==> c in h.clients)
  {
    if Enabled(h, e) {
      StepClosesOnce(h, e);
    }
  }

  lemma LeavingIsOut(h: Hub, c: nat)
    requires ClosedOnce(h) && c < |h.made|
    ensures c !in Next(h, Leave(h.made[c].id)).clients
  {
  }

  lemma ActStaysOrderly(s: System, a: Action)
    requires Orderly(s)
    ensures Orderly(Act(s, a))
  {
    if Possible(s, a) {
      var r := Act(s, a);
      var e := HubEvent(a, s);
      if e.Some? {
        HubStays(s.hub, e.value);
      }
      forall c | 0 <= c < |r.connections|
        ensures Out(r, c) && (r.connections[c].current == "" || r.connections[c].current in r.hub.announced)
      {
        if c < |s.connections| {
          assert Out(s, c);
          OneStaysOut(s, a, c);
        }
      }
    }
  }

  lemma OneStaysOut(s: System, a: Action, c: nat)
    requires Orderly(s) && Possible(s, a) && c < |s.connections|
    ensures c < |Act(s, a).connections| && Out(Act(s, a), c)
    ensures Act(s, a).connections[c].current == s.connections[c].current
  {
    var e := HubEvent(a, s);
    if e.Some? {
      HubStays(s.hub, e.value);
    }
    assert Out(s, c);
    if a.Greet? && a.c == c {
      GreetingFailsIff(s.connections[c].current, a.below);
    } else if (a.Disconnect? || a.SeeDone?) && a.c == c {
      LeavingIsOut(s.hub, c);
    }
  }

  lemma {:induction false} RunStaysOrderly(s: System, actions: seq<Action>)
    requires Orderly(s)
    ensures Orderly(Run(s, actions))
    decreases |actions|
  {
    if actions != [] {
      ActStaysOrderly(s, actions[0]);
      RunStaysOrderly(Act(s, actions[0]), actions[1..]);
    }
  }

  /** In every run, a connection that has ended is out of the map, unless the hash that it was to greet its
      client with does not fit into the buffer. */
  lemma EndedIsOut(actions: seq<Action>, c: nat)
    requires c < |Run(START, actions).connections| && Run(START, actions).connections[c].phase.Ended?
    ensures var s := Run(START, actions);
            c !in s.hub.clients || |s.connections[c].current| > MAX_HASH
  {
    RunStaysOrderly(START, actions);
    var s := Run(START, actions);
    assert Out(s, c);
    FitsIff(s.connections[c].current);
  }

  /** So with short hashes no ended connection is left behind. */
  lemma ShortHashesLeaveNobody(actions: seq<Action>, c: nat)
    requires c < |Run(START, actions).connections| && Run(START, actions).connections[c].phase.Ended?
    requires forall hash :: hash in Run(START, actions).hub.announced ==> |hash| <= MAX_HASH
    ensures c !in Run(START, actions).hub.clients
  {
    EndedIsOut(actions, c);
    RunStaysOrderly(START, actions);
  }

  /** A hash that is too long, and a stream that fails: the connection ends and leaves its client behind. */
  lemma OversizedGreetingStays(hash: string)
    requires |hash| > MAX_HASH
    ensures var s := Run(START, [Elsewhere(Admit), Elsewhere(Announce(hash)), Connect, Greet(0, Stream(false, 0))]);
            |s.connections| == 1 && s.connections[0].phase.Ended? && 0 in s.hub.clients
  {
    var greet := Greet(0, Stream(false, 0));
    var s1 := Act(START, Elsewhere(Admit));
    var s2 := Act(s1, Elsewhere(Announce(hash)));
    var s3 := Act(s2, Connect);
    FailedGreeting(s3, hash);
    RunFirst(START, Elsewhere(Admit), [Elsewhere(Announce(hash)), Connect, greet]);
    RunFirst(s1, Elsewhere(Announce(hash)), [Connect, greet]);
    RunFirst(s2, Connect, [greet]);
    RunFirst(s3, greet, []);
  }

  lemma FailedGreeting(s: System, hash: string)
    requires Handles(s.hub) && |s.hub.made| == 1 && s.connections == [Connection(hash, Greets)] && |hash| > MAX_HASH
    ensures var r := Act(s, Greet(0, Stream(false, 0)));
            r.hub == s.hub && |r.connections| == 1 && r.connections[0].phase.Ended?
  {
    FitsIff(hash);
    GreetingFailsIff(hash, Stream(false, 0));
  }

  lemma RunFirst(s: System, a: Action, rest: seq<Action>)
    requires Handles(s.hub)
    ensures Run(s, [a] + rest) == Run(Act(s, a), rest)
  {
    assert ([a] + rest)[1..] == rest;
  }

  /** A client that a broadcast or the shutdown has taken out and closed: its connection can end. */
  lemma TakenOutCanEnd(actions: seq<Action>, c: nat)
    requires Serving(Run(START, actions), c)
    requires var h := Run(START, actions).hub; c !in h.clients && c !in h.closing
    ensures Possible(Run(START, actions), SeeDone(c))
    ensures Act(Run(START, actions), SeeDone(c)).connections[c].phase.Ended?
  {
    RunStaysOrderly(START, actions);
  }
}
