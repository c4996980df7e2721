/** Every interleaving of the hub's concurrent methods: no client is closed twice, none that stays
    connected misses a hash, and a shutdown closes everyone who was there. */
module LiveReloadRuns {
  import opened Common
  import opened LiveReload

  lemma StepKeepsHandles(h: Hub, e: Event)
    requires Handles(h) && Enabled(h, e)
    ensures Handles(Step(h, e))
  {
  }

  /** An event that cannot happen is skipped, so every sequence of events is a run. */
  function Next(h: Hub, e: Event): (r: Hub)
    requires Handles(h)
    ensures Handles(r)
  {
    if Enabled(h, e) then StepKeepsHandles(h, e); Step(h, e) else h
  }

  function After(h: Hub, es: seq<Event>): (r: Hub)
    requires Handles(h)
    ensures Handles(r)
    decreases |es|
  {
    if es == [] then h else After(Next(h, es[0]), es[1..])
  }

  // ---------------------------------------------------------------- announcements and offers

  /** No empty hash is announced, and none twice in a row. */
  ghost predicate NewsOnly(h: Hub) {
    (forall k :: 0 <= k < |h.announced| ==> h.announced[k] != "")
    && forall k :: 0 < k < |h.announced| ==> h.announced[k - 1] != h.announced[k]
  }

  lemma {:induction false} AnnouncesNewsOnly(h: Hub, es: seq<Event>)
    requires Handles(h) && NewsOnly(h)
    ensures NewsOnly(After(h, es))
    decreases |es|
  {
    if es != [] {
      AnnouncesNewsOnly(Next(h, es[0]), es[1..]);
    }
  }

  /** An offer sends the hash exactly if the client has fewer than eight to read, and otherwise marks it to be
      dropped. */
  lemma OfferSendsIff(h: Hub, k: nat, c: nat)
    requires Handles(h) && Enabled(h, Offer(k, c))
    ensures var m, r := h.made[c], Step(h, Offer(k, c));
            && r.made[c].sent == (if |m.sent| - m.read < 8 then m.sent + [k] else m.sent)
            && (r.deliveries[k].drop == if |m.sent| - m.read < 8 then None else Some(c))
            && r.deliveries[k].todo == h.deliveries[k].todo - {c} && r.clients == h.clients
  {
  }

  /** Once the hub is closed, nobody is let in any more: only those who had been admitted can register. */
  lemma {:induction false} NobodyIsLetIn(h: Hub, es: seq<Event>)
    requires Handles(h) && h.closed
    ensures After(h, es).closed && |After(h, es).made| + After(h, es).admitted == |h.made| + h.admitted
    decreases |es|
  {
    if es != [] {
      NobodyIsLetIn(Next(h, es[0]), es[1..]);
    }
  }

  // ---------------------------------------------------------------- closing

  /** Identifiers are never reused, and the map finds the client that was given the identifier. */
  ghost predicate Identified(h: Hub) {
    && Handles(h)
    && h.nextID == |h.made|
    && (forall c :: 0 <= c < |h.made| ==> h.made[c].id == c)
    && (forall id :: id in h.clients ==> h.clients[id] == id)
  }

  lemma StepIdentifies(h: Hub, e: Event)
    requires Identified(h) && Enabled(h, e)
    ensures Identified(Step(h, e))
  {
    StepKeepsHandles(h, e);
  }

  /** A client has been closed exactly when it is neither connected nor in the hands of the shutdown. */
  ghost predicate ClosedOnce(h: Hub) {
    && Identified(h)
    && (forall c :: 0 <= c < |h.made| ==> h.made[c].closes == if c in h.clients || c in h.closing then 0 else 1)
    && (forall c :: c in h.closing ==> c !in h.clients)
    && (h.closing != {} ==> h.closed)
  }

  lemma StepClosesOnce(h: Hub, e: Event)
    requires ClosedOnce(h) && Enabled(h, e)
    ensures ClosedOnce(Step(h, e))
  {
    StepIdentifies(h, e);
    match e
    case Leave(_) =>
    case Drop(_) =>
    case Close(_) =>
    case _ =>
  }

  lemma {:induction false} RunClosesOnce(h: Hub, es: seq<Event>)
    requires ClosedOnce(h)
    ensures ClosedOnce(After(h, es))
    decreases |es|
  {
    if es != [] {
      if Enabled(h, es[0]) {
        StepClosesOnce(h, es[0]);
      }
      RunClosesOnce(Next(h, es[0]), es[1..]);
    }
  }

  /** In every interleaving, each client's `done` channel is closed at most once, and it is still open
      exactly while the client is in the map or waiting for the shutdown to close it. */
  lemma ClosedAtMostOnce(es: seq<Event>, c: nat)
    requires c < |After(EMPTY, es).made|
    ensures var h := After(EMPTY, es);
            h.made[c].closes <= 1 && (h.made[c].closes == 0 <==> Connected(h, c) || c in h.closing)
  {
    RunClosesOnce(EMPTY, es);
  }

  /** The event that calls `close` on the `done` channel of this client. */
  predicate Closes(h: Hub, e: Event, c: nat)
    requires Handles(h)
  {
    && Enabled(h, e)
    && match e
       case Leave(id) => id == c && c in h.clients
       case Drop(k) => h.deliveries[k].drop == Some(c) && c in h.clients
       case Close(d) => d == c
       case _ => false
  }

  /** A client is closed by the very step that takes it out of the map, unless that step is the shutdown,
      which takes it over and closes it later. No other step closes anything. */
  lemma TakenOutIsClosed(h: Hub, e: Event, c: nat)
    requires ClosedOnce(h) && c < |h.made|
    ensures Next(h, e).made[c].closes == h.made[c].closes + (if Closes(h, e, c) then 1 else 0)
    ensures c in h.clients && c !in Next(h, e).clients ==>
              Closes(h, e, c) || (e == BeginShutdown && c in Next(h, e).closing)
    ensures c in h.closing && c !in Next(h, e).closing ==> e == Close(c)
  {
    if c in h.clients {
      assert h.clients[c] in h.clients.Values;
    }
  }

  /** The clients below `n` are out of the map of a closed hub; those from `n` on registered too late for
      the shutdown and for every broadcast. */
  ghost predicate ShutAt(h: Hub, n: nat) {
    && h.closed && n <= |h.made|
    && (forall c :: c in h.clients ==> c >= n)
    && (forall c :: c in h.closing ==> c < n)
    && (forall k, c: nat :: 0 <= k < |h.deliveries| && h.deliveries[k].Concerns(c) ==> c < n)
    && (forall c :: n <= c < |h.made| ==> h.made[c].sent == [])
  }

  lemma StepStaysShut(h: Hub, e: Event, n: nat)
    requires ClosedOnce(h) && ShutAt(h, n)
    ensures ClosedOnce(Next(h, e)) && ShutAt(Next(h, e), n)
  {
    if Enabled(h, e) {
      StepClosesOnce(h, e);
      if e.Offer? {
        assert h.deliveries[e.k].Concerns(e.c);
      }
      var r := Step(h, e);
      forall k, c: nat | 0 <= k < |r.deliveries| && r.deliveries[k].Concerns(c) ensures c < n {
        assert h.deliveries[k].Concerns(c);
      }
    }
  }

  lemma {:induction false} RunStaysShut(h: Hub, es: seq<Event>, n: nat)
    requires ClosedOnce(h) && ShutAt(h, n)
    ensures ClosedOnce(After(h, es)) && ShutAt(After(h, es), n)
    decreases |es|
  {
    if es != [] {
      StepStaysShut(h, es[0], n);
      RunStaysShut(Next(h, es[0]), es[1..], n);
    }
  }

  lemma {:induction false} OnlyLeavingClosesLate(h: Hub, es: seq<Event>, n: nat, c: nat)
    requires ClosedOnce(h) && ShutAt(h, n) && n <= c && Leave(c) !in es
    requires c < |h.made| ==> c in h.clients
    ensures c < |After(h, es).made| ==> c in After(h, es).clients
    decreases |es|
  {
    if es != [] {
      StepStaysShut(h, es[0], n);
      assert es == [es[0]] + es[1..];
      if c < |h.made| {
        TakenOutIsClosed(h, es[0], c);
        assert es[0].Drop? && Enabled(h, es[0]) ==> h.deliveries[es[0].k].Concerns(h.deliveries[es[0].k].drop.value);
      }
      OnlyLeavingClosesLate(Next(h, es[0]), es[1..], n, c);
    }
  }

  /** After a shutdown has run to its end, every client that was there is closed. A client that still
      registers afterwards gets no hash, and stays open until its own connection leaves. */
  lemma ShutdownClosesEveryone(before: seq<Event>, after: seq<Event>, c: nat)
    requires Enabled(After(EMPTY, before), BeginShutdown)
    ensures var h := After(EMPTY, before);
            var last := After(Next(h, BeginShutdown), after);
            && (c < |h.made| && last.closing == {} ==> c < |last.made| && last.made[c].closes == 1)
            && (|h.made| <= c < |last.made| ==>
                  && last.made[c].sent == []
                  && (Leave(c) !in after ==> last.made[c].closes == 0))
  {
    var h := After(EMPTY, before);
    RunClosesOnce(EMPTY, before);
    StartsShut(h);
    RunStaysShut(Next(h, BeginShutdown), after, |h.made|);
    if c >= |h.made| && Leave(c) !in after {
      OnlyLeavingClosesLate(Next(h, BeginShutdown), after, |h.made|, c);
    }
  }

  lemma StartsShut(h: Hub)
    requires ClosedOnce(h) && Enabled(h, BeginShutdown)
    ensures ClosedOnce(Next(h, BeginShutdown)) && ShutAt(Next(h, BeginShutdown), |h.made|)
  {
    StepClosesOnce(h, BeginShutdown);
  }
}
