/** What the clients of the live-reload hub are sent, over every interleaving. */
module LiveReloadDelivery {
  import opened Common
  import opened LiveReload
  import opened LiveReloadRuns

  // ---------------------------------------------------------------- nothing is lost, nothing is doubled

  /** The books of one client: no announcement twice, none from before it registered, none still due that
      has been sent, the channel never over its size; and while it is connected, each announcement since
      has been sent or is still due. */
  ghost predicate BooksOf(h: Hub, c: nat)
    requires c < |h.made|
  {
    var m := h.made[c];
    && m.joined <= |h.deliveries|
    && m.read <= |m.sent| <= m.read + CHANNEL_SIZE
    && Distinct(m.sent)
    && (forall k :: k in m.sent ==> m.joined <= k < |h.deliveries| && !h.deliveries[k].Concerns(c))
    && (forall k :: 0 <= k < |h.deliveries| && h.deliveries[k].Concerns(c) ==> m.joined <= k)
    && (c in h.clients ==>
          forall k :: m.joined <= k < |h.deliveries| ==> k in m.sent || h.deliveries[k].Concerns(c))
  }

  ghost predicate Books(h: Hub) {
    && ClosedOnce(h)
    && |h.deliveries| == |h.announced|
    && (forall k :: 0 <= k < |h.deliveries| && h.deliveries[k].drop.Some? ==>
          h.deliveries[k].drop.value !in h.deliveries[k].todo)
    && (forall c :: 0 <= c < |h.made| ==> BooksOf(h, c))
  }

  lemma OfferKeepsBooksOf(h: Hub, k: nat, c: nat, d: nat)
    requires Books(h) && Enabled(h, Offer(k, c)) && d < |h.made|
    ensures BooksOf(OfferTo(h, k, c), d)
  {
    var r := OfferTo(h, k, c);
    assert BooksOf(h, d) && h.deliveries[k].Concerns(c);
    forall l | 0 <= l < |h.deliveries| && (l != k || d != c)
      ensures r.deliveries[l].Concerns(d) <==> h.deliveries[l].Concerns(d)
    {
    }
  }

  lemma OthersKeepBooksOf(h: Hub, e: Event, c: nat)
    requires Books(h) && Enabled(h, e) && !e.Offer? && !e.Announce? && c < |h.made|
    ensures BooksOf(Step(h, e), c)
  {
    SameClient(h, e, c);
    BooksCarry(h, Step(h, e), c);
  }

  /** The books of a client stay the same, up to its reading and to what was due when it left. */
  ghost predicate Carries(h: Hub, r: Hub, c: nat)
    requires c < |h.made|
  {
    && c < |r.made| && |r.deliveries| == |h.deliveries| && (c in r.clients ==> c in h.clients)
    && r.made[c].sent == h.made[c].sent && r.made[c].joined == h.made[c].joined
    && h.made[c].read <= r.made[c].read <= |h.made[c].sent|
    && (forall k :: 0 <= k < |h.deliveries| && r.deliveries[k].Concerns(c) ==> h.deliveries[k].Concerns(c))
    && (forall k :: 0 <= k < |h.deliveries| && h.deliveries[k].Concerns(c) && c in r.clients ==>
          r.deliveries[k].Concerns(c))
  }

  lemma SameClient(h: Hub, e: Event, c: nat)
    requires Books(h) && Enabled(h, e) && !e.Offer? && !e.Announce? && c < |h.made|
    ensures Carries(h, Step(h, e), c)
  {
    assert BooksOf(h, c);
    if e.Drop? {
      assert h.deliveries[e.k].drop == Some(c) ==> c !in Step(h, e).clients;
    }
  }

  lemma BooksCarry(h: Hub, r: Hub, c: nat)
    requires c < |h.made| && BooksOf(h, c) && Carries(h, r, c)
    ensures BooksOf(r, c)
  {
  }

  lemma AnnounceKeepsBooksOf(h: Hub, hash: string, c: nat)
    requires Books(h) && Enabled(h, Announce(hash)) && c < |h.made|
    ensures BooksOf(Step(h, Announce(hash)), c)
  {
    var r := Step(h, Announce(hash));
    assert BooksOf(h, c);
    assert c in h.clients ==> h.clients[c] in h.clients.Values;
    forall k | 0 <= k < |h.deliveries| ensures r.deliveries[k] == h.deliveries[k] {
    }
  }

  lemma NewcomerHasBooks(h: Hub)
    requires Books(h) && Enabled(h, Register)
    ensures BooksOf(Step(h, Register), |h.made|)
  {
    forall k | 0 <= k < |h.deliveries| ensures !h.deliveries[k].Concerns(|h.made|) {
    }
  }

  lemma StepKeepsBooksOf(h: Hub, e: Event, c: nat)
    requires Books(h) && Enabled(h, e) && c < |Step(h, e).made|
    ensures BooksOf(Step(h, e), c)
  {
    if e.Offer? {
      OfferKeepsBooksOf(h, e.k, e.c, c);
    } else if e.Announce? {
      AnnounceKeepsBooksOf(h, e.hash, c);
    } else if c < |h.made| {
      OthersKeepBooksOf(h, e, c);
    } else {
      NewcomerHasBooks(h);
    }
  }

  lemma StepKeepsBooks(h: Hub, e: Event)
    requires Books(h)
    ensures Books(Next(h, e))
  {
    if Enabled(h, e) {
      StepClosesOnce(h, e);
      forall c: nat | c < |Step(h, e).made| ensures BooksOf(Step(h, e), c) {
        StepKeepsBooksOf(h, e, c);
      }
    }
  }

  lemma {:induction false} RunKeepsBooks(h: Hub, es: seq<Event>)
    requires Books(h)
    ensures Books(After(h, es))
    decreases |es|
  {
    if es != [] {
      StepKeepsBooks(h, es[0]);
      RunKeepsBooks(Next(h, es[0]), es[1..]);
    }
  }

  /** No broadcast under way still has to deal with this client. */
  ghost predicate NothingDue(h: Hub, c: nat) {
    forall k :: 0 <= k < |h.deliveries| ==> !h.deliveries[k].Concerns(c)
  }

  /** In every interleaving, a connected client for which nothing is due has been sent every announcement
      made since it registered exactly once. In particular a client that nobody reads for is dropped: it
      cannot stay connected past the announcements that its channel can hold. */
  lemma ConnectedMissesNothing(es: seq<Event>, c: nat)
    requires c < |After(EMPTY, es).made| && Connected(After(EMPTY, es), c) && NothingDue(After(EMPTY, es), c)
    ensures var h := After(EMPTY, es);
            var m := h.made[c];
            && Distinct(m.sent)
            && (forall k :: k in m.sent <==> m.joined <= k < |h.announced|)
            && |m.sent| == |h.announced| - m.joined <= m.read + CHANNEL_SIZE
  {
    RunKeepsBooks(EMPTY, es);
    var h := After(EMPTY, es);
    assert BooksOf(h, c);
    RangeSize(h.made[c].sent, h.made[c].joined, |h.announced|);
  }

  lemma {:induction false} RangeSize(s: seq<nat>, lo: nat, hi: nat)
    requires Distinct(s) && lo <= hi && forall k :: k in s <==> lo <= k < hi
    ensures |s| == hi - lo
    decreases hi
  {
    assert s == [] || s[0] in s;
    if lo < hi {
      assert hi - 1 in s;
      var p :| 0 <= p < |s| && s[p] == hi - 1;
      var rest := WithoutOne(s, p);
      RangeSize(rest, lo, hi - 1);
    }
  }

  lemma WithoutOne(s: seq<nat>, p: nat) returns (rest: seq<nat>)
    requires Distinct(s) && p < |s|
    ensures Distinct(rest) && |rest| == |s| - 1 && forall k :: k in rest <==> k in s && k != s[p]
  {
    rest := s[..p] + s[p + 1..];
    forall k | k in rest ensures k in s && k != s[p] {
      var i :| 0 <= i < |rest| && rest[i] == k;
      assert s[if i < p then i else i + 1] == k;
    }
    forall k | k in s && k != s[p] ensures k in rest {
      var i :| 0 <= i < |s| && s[i] == k;
      assert rest[if i < p then i else i - 1] == k;
    }
  }

  // ---------------------------------------------------------------- order

  ghost predicate Increasing(s: seq<nat>) {
    forall i, j :: 0 <= i < j < |s| ==> s[i] < s[j]
  }

  ghost predicate InOrder(h: Hub) {
    forall c :: 0 <= c < |h.made| ==> Increasing(h.made[c].sent)
  }

  /** The event sends a client a hash after a later hash has been sent to it. */
  ghost predicate Overtaken(h: Hub, e: Event)
    requires Handles(h)
  {
    && Enabled(h, e) && e.Offer? && !h.made[e.c].Full()
    && exists later :: later in h.made[e.c].sent && e.k < later
  }

  lemma StepOrder(h: Hub, e: Event)
    requires Books(h)
    ensures InOrder(Next(h, e)) <==> InOrder(h) && !Overtaken(h, e)
  {
    var r := Next(h, e);
    if Enabled(h, e) && e.Offer? && !h.made[e.c].Full() {
      var sent := h.made[e.c].sent;
      assert BooksOf(h, e.c) && h.deliveries[e.k].Concerns(e.c);
      assert r.made[e.c].sent == sent + [e.k];
      forall c | 0 <= c < |h.made| && c != e.c ensures r.made[c].sent == h.made[c].sent {
      }
      AppendIncreasing(sent, e.k);
    } else {
      forall c | 0 <= c < |h.made| ensures r.made[c].sent == h.made[c].sent {
      }
    }
  }

  lemma AppendIncreasing(s: seq<nat>, k: nat)
    requires k !in s
    ensures Increasing(s + [k]) <==> Increasing(s) && !exists later :: later in s && k < later
  {
    var t := s + [k];
    assert forall i :: 0 <= i < |s| ==> t[i] == s[i] && s[i] in s;
    if Increasing(t) {
      forall i, j | 0 <= i < j < |s| ensures s[i] < s[j] {
        assert t[i] < t[j];
      }
      assert forall i :: 0 <= i < |s| ==> t[i] < t[|s|];
    }
  }

  /** Broadcast `j` has still to offer its hash to client `c`, which has been sent, or is still to be
      offered, the hash of the later broadcast `k`. */
  ghost predicate Racing(h: Hub, j: nat, k: nat, c: nat) {
    && j < k < |h.deliveries| && c < |h.made|
    && c in h.deliveries[j].todo && (k in h.made[c].sent || c in h.deliveries[k].todo)
  }

  ghost predicate AtRisk(h: Hub) {
    exists j, k, c :: Racing(h, j, k, c)
  }

  ghost predicate NoAnnouncement(es: seq<Event>) {
    forall e :: e in es ==> !e.Announce?
  }

  /** What a step leaves racing was racing before, unless it starts a broadcast. */
  lemma RaceIsOld(h: Hub, e: Event, j: nat, k: nat, c: nat)
    requires Books(h) && !e.Announce? && Racing(Next(h, e), j, k, c)
    ensures Racing(h, j, k, c)
  {
    if Enabled(h, e) {
      assert |h.made| !in h.deliveries[j].todo;
      if e.Offer? {
        assert e.c in h.deliveries[e.k].todo;
      }
    }
  }

  lemma SafeStep(h: Hub, e: Event)
    requires Books(h) && InOrder(h) && !AtRisk(h) && !e.Announce?
    ensures Books(Next(h, e)) && InOrder(Next(h, e)) && !AtRisk(Next(h, e))
  {
    StepKeepsBooks(h, e);
    StepOrder(h, e);
    if Overtaken(h, e) {
      var later :| later in h.made[e.c].sent && e.k < later;
      LaterIsAnnounced(h, e.c, later);
      assert Racing(h, e.k, later, e.c);
    }
    if AtRisk(Next(h, e)) {
      var j: nat, k: nat, c: nat :| Racing(Next(h, e), j, k, c);
      RaceIsOld(h, e, j, k, c);
    }
  }

  lemma LaterIsAnnounced(h: Hub, c: nat, k: nat)
    requires Books(h) && c < |h.made| && k in h.made[c].sent
    ensures k < |h.deliveries|
  {
    assert BooksOf(h, c);
  }

  lemma {:induction false} SafeRun(h: Hub, es: seq<Event>)
    requires Books(h) && InOrder(h) && !AtRisk(h) && NoAnnouncement(es)
    ensures InOrder(After(h, es))
    decreases |es|
  {
    if es != [] {
      SafeStep(h, es[0]);
      SafeRun(Next(h, es[0]), es[1..]);
    }
  }

  // ---------------------------------------------------------------- how a race is lost

  /** The hub went on without an announcement, and no offer was made. */
  ghost predicate SameOffers(h: Hub, r: Hub) {
    && |r.made| == |h.made| && |r.deliveries| == |h.deliveries|
    && (forall l :: 0 <= l < |h.deliveries| ==> r.deliveries[l].todo == h.deliveries[l].todo)
    && (forall d :: 0 <= d < |h.made| ==> r.made[d].sent == h.made[d].sent)
  }

  /** A broadcast finishes its drop. */
  lemma DropFinished(h: Hub, k: nat) returns (es: seq<Event>, r: Hub)
    requires Books(h) && k < |h.deliveries|
    ensures NoAnnouncement(es) && r == After(h, es) && Books(r) && SameOffers(h, r) && r.deliveries[k].drop.None?
  {
    es := if h.deliveries[k].drop.Some? then [Drop(k)] else [];
    RunOfOne(h, es);
    r := After(h, es);
    RunKeepsBooks(h, es);
  }

  /** A client reads, so that its channel is not full. */
  lemma RoomMade(h: Hub, c: nat) returns (es: seq<Event>, r: Hub)
    requires Books(h) && c < |h.made|
    ensures NoAnnouncement(es) && r == After(h, es) && Books(r) && SameOffers(h, r) && !r.made[c].Full()
    ensures r.deliveries == h.deliveries
  {
    es := if h.made[c].Full() then [Receive(c)] else [];
    RunOfOne(h, es);
    r := After(h, es);
    RunKeepsBooks(h, es);
    assert BooksOf(h, c);
  }

  lemma RunOfOne(h: Hub, es: seq<Event>)
    requires Handles(h) && |es| <= 1
    ensures After(h, es) == if es == [] then h else Next(h, es[0])
  {
    assert es != [] ==> es[1..] == [];
  }

  lemma {:induction false} AfterConcat(h: Hub, a: seq<Event>, b: seq<Event>)
    requires Handles(h)
    ensures After(h, a + b) == After(After(h, a), b)
    decreases |a|
  {
    var all := a + b;
    if a == [] {
      assert all == b;
    } else {
      assert all[0] == a[0] && all[1..] == a[1..] + b;
      var next := SameFirstEvent(h, a, all);
      AfterConcat(next, a[1..], b);
    }
  }

  lemma SameFirstEvent(h: Hub, a: seq<Event>, b: seq<Event>) returns (next: Hub)
    requires Handles(h) && a != [] && b != [] && a[0] == b[0]
    ensures Handles(next) && After(h, a) == After(next, a[1..]) && After(h, b) == After(next, b[1..])
  {
    next := Next(h, a[0]);
  }

  /** Makes one offer go through. */
  lemma Delivered(h: Hub, k: nat, c: nat) returns (es: seq<Event>, r: Hub)
    requires Books(h) && k < |h.deliveries| && c < |h.made| && c in h.deliveries[k].todo
    ensures NoAnnouncement(es) && r == After(h, es) && Books(r)
    ensures |r.made| == |h.made| && |r.deliveries| == |h.deliveries|
    ensures forall l :: 0 <= l < |h.deliveries| && l != k ==> r.deliveries[l].todo == h.deliveries[l].todo
    ensures r.made[c].sent == h.made[c].sent + [k]
  {
    var drops, h1 := DropFinished(h, k);
    var reading, h2 := RoomMade(h1, c);
    var offer := [Offer(k, c)];
    RunOfOne(h2, offer);
    r := Next(h2, Offer(k, c));
    AfterConcat(h, drops, reading);
    AfterConcat(h, drops + reading, offer);
    StepKeepsBooks(h2, Offer(k, c));
    es := drops + reading + offer;
  }

  /** A race can be lost: some interleaving sends the client the older hash last. */
  lemma RaceLost(h: Hub, j: nat, k: nat, c: nat) returns (es: seq<Event>)
    requires Books(h) && Racing(h, j, k, c)
    ensures NoAnnouncement(es) && !InOrder(After(h, es))
  {
    es := [];
    var mid := h;
    if k !in h.made[c].sent {
      es, mid := Delivered(h, k, c);
      assert mid.made[c].sent[|h.made[c].sent|] == k;
    }
    var last, end := Delivered(mid, j, c);
    AfterConcat(h, es, last);
    es := es + last;
    var i :| 0 <= i < |mid.made[c].sent| && mid.made[c].sent[i] == k;
    assert end.made[c].sent[i] == k && end.made[c].sent[|mid.made[c].sent|] == j;
  }

  /** From a state in which everyone got the hashes in order so far, the broadcasts under way can still get
      out of order if and only if one of them has to reach a client that a later one has reached or has to
      reach as well. */
  lemma OrderIff(h: Hub)
    requires Books(h) && InOrder(h)
    ensures (exists es :: NoAnnouncement(es) && !InOrder(After(h, es))) <==> AtRisk(h)
  {
    if AtRisk(h) {
      var j: nat, k: nat, c: nat :| Racing(h, j, k, c);
      var es := RaceLost(h, j, k, c);
    } else {
      forall es | NoAnnouncement(es) ensures InOrder(After(h, es)) {
        SafeRun(h, es);
      }
    }
  }

  /** A new broadcast brings a risk if and only if an earlier one has still to reach a connected client. */
  lemma AnnouncementRisks(h: Hub, hash: string)
    requires Books(h) && Enabled(h, Announce(hash))
    ensures AtRisk(Next(h, Announce(hash))) <==>
            AtRisk(h) || exists j, c :: 0 <= j < |h.deliveries| && c in h.deliveries[j].todo && c in h.clients
  {
    var r, n := Next(h, Announce(hash)), |h.deliveries|;
    SnapshotIsClients(h);
    if AtRisk(h) {
      var j: nat, k: nat, c: nat :| Racing(h, j, k, c);
      assert Racing(r, j, k, c);
    }
    if j: nat, c: nat :| j < n && c in h.deliveries[j].todo && c in h.clients {
      assert Racing(r, j, n, c);
    }
    if AtRisk(r) {
      var j: nat, k: nat, c: nat :| Racing(r, j, k, c);
      if k < n {
        assert Racing(h, j, k, c);
      } else {
        assert BooksOf(h, c);
        assert k !in h.made[c].sent;
      }
    }
  }

  lemma SnapshotIsClients(h: Hub)
    requires ClosedOnce(h)
    ensures forall c :: c in h.clients.Values <==> c in h.clients
  {
    forall c | c in h.clients ensures c in h.clients.Values {
      assert h.clients[c] == c;
    }
  }

  /** Each broadcast begins when the ones before it have finished. */
  ghost predicate Serial(h: Hub, es: seq<Event>)
    requires Handles(h)
    decreases |es|
  {
    || es == []
    || (&& (es[0].Announce? ==> forall k :: 0 <= k < |h.deliveries| ==> h.deliveries[k].Finished())
        && Serial(Next(h, es[0]), es[1..]))
  }

  /** A run whose broadcasts are serial never comes to be at risk. */
  lemma {:induction false} SerialIsOrdered(h: Hub, es: seq<Event>)
    requires Books(h) && InOrder(h) && !AtRisk(h) && Serial(h, es)
    ensures InOrder(After(h, es))
    decreases |es|
  {
    if es != [] {
      SerialStep(h, es[0]);
      SerialIsOrdered(Next(h, es[0]), es[1..]);
    }
  }

  lemma SerialStep(h: Hub, e: Event)
    requires Books(h) && InOrder(h) && !AtRisk(h)
    requires e.Announce? ==> forall k :: 0 <= k < |h.deliveries| ==> h.deliveries[k].Finished()
    ensures Books(Next(h, e)) && InOrder(Next(h, e)) && !AtRisk(Next(h, e))
  {
    if e.Announce? && Enabled(h, e) {
      StepKeepsBooks(h, e);
      StepOrder(h, e);
      AnnouncementRisks(h, e.hash);
    } else if !e.Announce? {
      SafeStep(h, e);
    }
  }

  lemma StartsInOrder()
    ensures Books(EMPTY) && InOrder(EMPTY) && !AtRisk(EMPTY)
  {
  }

  /** With one broadcast at a time, a connected client for which nothing is due has been sent exactly the
      announcements since it registered, in order; so the hash it saw last is the current one. */
  lemma SerialClientsAreCurrent(es: seq<Event>, c: nat)
    requires Serial(EMPTY, es)
    requires c < |After(EMPTY, es).made| && Connected(After(EMPTY, es), c) && NothingDue(After(EMPTY, es), c)
    ensures var h := After(EMPTY, es);
            var m := h.made[c];
            && |m.sent| == |h.announced| - m.joined
            && (forall i :: 0 <= i < |m.sent| ==> m.sent[i] == m.joined + i)
            && (m.sent != [] ==> h.announced[Last(m.sent)] == LastHash(h))
  {
    ConnectedMissesNothing(es, c);
    StartsInOrder();
    SerialIsOrdered(EMPTY, es);
    var h := After(EMPTY, es);
    IncreasingRange(h.made[c].sent, h.made[c].joined, |h.announced|);
  }

  lemma {:induction false} IncreasingRange(s: seq<nat>, lo: nat, hi: nat)
    requires Increasing(s) && |s| == hi - lo && forall k :: k in s ==> lo <= k < hi
    ensures forall i :: 0 <= i < |s| ==> s[i] == lo + i
    decreases |s|
  {
    if s != [] {
      var n := |s| - 1;
      assert s[n] in s;
      forall k | k in s[..n] ensures lo <= k < hi - 1 {
        var i :| 0 <= i < n && s[i] == k;
        assert s[i] in s && s[i] < s[n];
      }
      IncreasingRange(s[..n], lo, hi - 1);
      assert n > 0 ==> s[n - 1] == s[..n][n - 1] == lo + n - 1;
    }
  }

  /** Two broadcasts at the same time can leave a connected client with the older hash for good: nothing
      is due any more, the last hash is "b", and the client was sent "b" before "a". */
  lemma ConcurrentBroadcastsReorder() returns (es: seq<Event>, h: Hub)
    ensures es == [Admit, Register, Announce("a"), Announce("b"), Offer(1, 0), Offer(0, 0)]
    ensures After(EMPTY, es) == h
    ensures h == Hub(1, map[0 := 0], false, ["a", "b"], [Client(0, 0, [1, 0], 0, 0)],
                     [Delivery({}, None), Delivery({}, None)], {}, 0)
  {
    var one := OneClient(EMPTY);
    var rest;
    rest, h := Overtaking(one);
    FirstTwo(EMPTY, Admit, Register, rest);
    es := [Admit, Register] + rest;
  }

  lemma OneClient(h: Hub) returns (one: Hub)
    requires h == EMPTY
    ensures one == Next(Next(h, Admit), Register)
    ensures one == Hub(1, map[0 := 0], false, [], [Client(0, 0, [], 0, 0)], [], {}, 0)
  {
    one := Next(Next(h, Admit), Register);
  }

  lemma FirstTwo(h: Hub, a: Event, b: Event, es: seq<Event>)
    requires Handles(h)
    ensures After(h, [a, b] + es) == After(Next(Next(h, a), b), es)
  {
    assert ([a, b] + es)[1..] == [b] + es && ([b] + es)[1..] == es;
  }

  lemma Overtaking(one: Hub) returns (es: seq<Event>, h: Hub)
    requires one == Hub(1, map[0 := 0], false, [], [Client(0, 0, [], 0, 0)], [], {}, 0)
    ensures es == [Announce("a"), Announce("b"), Offer(1, 0), Offer(0, 0)]
    ensures After(one, es) == h
    ensures h == Hub(1, map[0 := 0], false, ["a", "b"], [Client(0, 0, [1, 0], 0, 0)],
                     [Delivery({}, None), Delivery({}, None)], {}, 0)
  {
    var two := Announced(one, "a", "b");
    h := OfferedBackwards(two);
    var offers := [Offer(1, 0), Offer(0, 0)];
    FirstTwo(two, Offer(1, 0), Offer(0, 0), []);
    assert offers + [] == offers;
    FirstTwo(one, Announce("a"), Announce("b"), offers);
    es := [Announce("a"), Announce("b")] + offers;
  }

  lemma Announced(h: Hub, a: string, b: string) returns (r: Hub)
    requires Handles(h) && !h.closed && h.announced == [] && h.deliveries == [] && a != "" && b != "" && a != b
    requires h.clients == map[0 := 0]
    ensures r == Next(Next(h, Announce(a)), Announce(b))
    ensures r == h.(announced := [a, b], deliveries := [Delivery({0}, None), Delivery({0}, None)])
  {
    assert 0 in h.clients && h.clients[0] == 0;
    assert h.clients.Values == {0};
    r := Next(Next(h, Announce(a)), Announce(b));
  }

  lemma OfferedBackwards(h: Hub) returns (r: Hub)
    requires Handles(h) && h.deliveries == [Delivery({0}, None), Delivery({0}, None)]
    requires |h.made| == 1 && h.made[0].sent == [] && h.made[0].read == 0
    ensures r == Next(Next(h, Offer(1, 0)), Offer(0, 0))
    ensures r == h.(made := [h.made[0].(sent := [1, 0])], deliveries := [Delivery({}, None), Delivery({}, None)])
  {
    var none: set<nat> := {};
    var rest: set<nat> := {0} - {0};
    assert rest == none;
    var one := OfferTo(h, 1, 0);
    assert Next(h, Offer(1, 0)) == one;
    assert one.deliveries == [Delivery({0}, None), Delivery(rest, None)];
    assert h.made[0].sent + [1] == [1];
    assert one.made == [h.made[0].(sent := [1])];
    assert Next(one, Offer(0, 0)) == OfferTo(one, 0, 0);
    assert [1] + [0] == [1, 0];
    r := OfferTo(one, 0, 0);
  }
}
