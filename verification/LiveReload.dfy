/** The live-reload hub: clients register and leave, hashes are broadcast, and a shutdown closes everyone.
    Each event is one critical section or one channel operation, so any interleaving of the concurrent
    methods is a sequence of events. */
module LiveReload {
  import opened Common

  /** How many hashes fit in the channel of a client. */
  const CHANNEL_SIZE := 8

  /** A client object. `joined` counts the hashes announced before it registered, `sent` lists the
      announcements put on its channel, of which `read` have been taken, and `closes` counts how often
      its `done` channel has been closed (a second time would crash the program). */
  datatype Client = Client(id: nat, joined: nat, sent: seq<nat>, read: nat, closes: nat) {
    predicate Full() {
      |sent| >= read + CHANNEL_SIZE
    }
  }

  /** A broadcast under way: the clients of its snapshot still to be offered the hash, and the one that
      it is about to drop. */
  datatype Delivery = Delivery(todo: set<nat>, drop: Option<nat>) {
    predicate Concerns(c: nat) {
      c in todo || drop == Some(c)
    }

    predicate Finished() {
      todo == {} && drop.None?
    }
  }

  /** `clients` maps identifiers to client objects, which are positions in `made`; `announced` holds every
      value that the last hash has had, with one delivery each; `closing` holds the clients that the
      shutdown has taken over and not closed yet; `admitted` counts the connections that have been let in
      and not registered yet. */
  datatype Hub = Hub(
    nextID: nat, clients: map<nat, nat>, closed: bool, announced: seq<string>, made: seq<Client>,
    deliveries: seq<Delivery>, closing: set<nat>, admitted: nat)

  const EMPTY := Hub(0, map[], false, [], [], [], {}, 0)

  function LastHash(h: Hub): string {
    if h.announced == [] then "" else Last(h.announced)
  }

  predicate Connected(h: Hub, c: nat)
    requires c < |h.made|
  {
    h.made[c].id in h.clients
  }

  datatype Event =
    | Admit
    | Register
    | Leave(id: nat)
    | Announce(hash: string)
    | Offer(k: nat, c: nat)
    | Drop(k: nat)
    | Receive(c: nat)
    | BeginShutdown
    | Close(c: nat)

  predicate Enabled(h: Hub, e: Event) {
    match e
    case Admit => !h.closed
    case Register => h.admitted > 0
    case Leave(_) => true
    case Announce(hash) => !h.closed && hash != "" && hash != LastHash(h)
    case Offer(k, c) => k < |h.deliveries| && h.deliveries[k].drop.None? && c in h.deliveries[k].todo
    case Drop(k) => k < |h.deliveries| && h.deliveries[k].drop.Some?
    case Receive(c) => c < |h.made| && h.made[c].read < |h.made[c].sent|
    case BeginShutdown => !h.closed
    case Close(c) => c in h.closing
  }

  /** Every reference to a client object is to an existing one. */
  predicate Handles(h: Hub) {
    && (forall id :: id in h.clients ==> h.clients[id] < |h.made|)
    && (forall c :: c in h.closing ==> c < |h.made|)
    && (forall k, c :: 0 <= k < |h.deliveries| && c in h.deliveries[k].todo ==> c < |h.made|)
    && (forall k :: 0 <= k < |h.deliveries| && h.deliveries[k].drop.Some? ==> h.deliveries[k].drop.value < |h.made|)
  }

  function CloseDone(made: seq<Client>, c: nat): seq<Client>
    requires c < |made|
  {
    made[c := made[c].(closes := made[c].closes + 1)]
  }

  /** Takes a client out of the map and closes it, if the map still has one under this identifier. */
  function RemoveClient(h: Hub, id: nat): Hub
    requires Handles(h)
  {
    if id in h.clients
    then h.(clients := h.clients - {id}, made := CloseDone(h.made, h.clients[id]))
    else h
  }

  /** A send that does not wait: a full channel marks the client as one to drop. */
  function OfferTo(h: Hub, k: nat, c: nat): Hub
    requires k < |h.deliveries| && c < |h.made|
  {
    var d := h.deliveries[k];
    if h.made[c].Full()
    then h.(deliveries := h.deliveries[k := Delivery(d.todo - {c}, Some(c))])
    else h.(deliveries := h.deliveries[k := Delivery(d.todo - {c}, None)],
            made := h.made[c := h.made[c].(sent := h.made[c].sent + [k])])
  }

  function Step(h: Hub, e: Event): Hub
    requires Handles(h) && Enabled(h, e)
  {
    match e
    case Admit => h.(admitted := h.admitted + 1)
    case Register =>
      h.(admitted := h.admitted - 1, nextID := h.nextID + 1, clients := h.clients[h.nextID := |h.made|],
         made := h.made + [Client(h.nextID, |h.announced|, [], 0, 0)])
    case Leave(id) => RemoveClient(h, id)
    case Announce(hash) =>
      h.(announced := h.announced + [hash], deliveries := h.deliveries + [Delivery(h.clients.Values, None)])
    case Offer(k, c) => OfferTo(h, k, c)
    case Drop(k) =>
      RemoveClient(h.(deliveries := h.deliveries[k := h.deliveries[k].(drop := None)]),
                   h.made[h.deliveries[k].drop.value].id)
    case Receive(c) => h.(made := h.made[c := h.made[c].(read := h.made[c].read + 1)])
    case BeginShutdown => h.(closed := true, clients := map[], closing := h.clients.Values)
    case Close(c) => h.(closing := h.closing - {c}, made := CloseDone(h.made, c))
  }

  // ---------------------------------------------------------------- the implementation

  /** The hub. The fields behind `lastHash` are those of the clients and of the calls under way. */
  class LiveReloadHub {
    var nextID: nat
    var clients: map<nat, nat>
    var closed: bool
    var lastHash: string

    var made: seq<Client>
    var deliveries: seq<Delivery>
    var closing: set<nat>
    var admitted: nat
    ghost var announced: seq<string>

    ghost predicate Valid()
      reads this
    {
      Handles(View()) && lastHash == LastHash(View()) && |deliveries| == |announced|
    }

    ghost function View(): Hub
      reads this
    {
      Hub(nextID, clients, closed, announced, made, deliveries, closing, admitted)
    }

    constructor ()
      ensures Valid() && View() == EMPTY
    {
      nextID, clients, closed, lastHash := 0, map[], false, "";
      made, deliveries, closing, admitted := [], [], {}, 0;
      announced := [];
    }

    /** The check on arrival, under the read lock. */
    method Admit() returns (ok: bool)
      requires Valid()
      modifies `admitted
      ensures Valid() && ok == Enabled(old(View()), Event.Admit)
      ensures View() == if ok then Step(old(View()), Event.Admit) else old(View())
    {
      ok := !closed;
      if ok {
        admitted := admitted + 1;
      }
    }

    /** The registration, which does not look at `closed` again. */
    method Register() returns (id: nat, current: string)
      requires Valid() && Enabled(View(), Event.Register)
      modifies `admitted, `nextID, `clients, `made
      ensures Valid() && View() == Step(old(View()), Event.Register)
      ensures id == old(nextID) && current == LastHash(View())
    {
      id := nextID;
      var client := Client(id, |deliveries|, [], 0, 0);
      admitted := admitted - 1;
      nextID := nextID + 1;
      clients := clients[id := |made|];
      made := made + [client];
      current := lastHash;
    }

    method RemoveClient(id: nat)
      requires Valid()
      modifies `clients, `made
      ensures Valid() && View() == Step(old(View()), Leave(id))
    {
      if id in clients {
        var c := clients[id];
        clients := clients - {id};
        made := CloseDone(made, c);
      }
    }

    /** The first half of a broadcast, under the lock: remembers the hash and takes the snapshot. */
    method Announce(hash: string) returns (ok: bool)
      requires Valid()
      modifies `lastHash, `announced, `deliveries
      ensures Valid() && ok == Enabled(old(View()), Event.Announce(hash))
      ensures View() == if ok then Step(old(View()), Event.Announce(hash)) else old(View())
    {
      if closed {
        return false;
      }
      if hash == "" || hash == lastHash {
        return false;
      }
      lastHash := hash;
      announced := announced + [hash];
      deliveries := deliveries + [Delivery(clients.Values, None)];
      return true;
    }

    /** One round of the second half: a send that does not wait, and a note to drop the client otherwise. */
    method Offer(k: nat, c: nat)
      requires Valid() && Enabled(View(), Event.Offer(k, c))
      modifies `deliveries, `made
      ensures Valid() && View() == Step(old(View()), Event.Offer(k, c))
    {
      var rest := deliveries[k].todo - {c};
      if made[c].Full() {
        deliveries := deliveries[k := Delivery(rest, Some(c))];
      } else {
        deliveries := deliveries[k := Delivery(rest, None)];
        made := made[c := made[c].(sent := made[c].sent + [k])];
      }
    }

    method Drop(k: nat)
      requires Valid() && Enabled(View(), Event.Drop(k))
      modifies `deliveries, `clients, `made
      ensures Valid() && View() == Step(old(View()), Event.Drop(k))
    {
      var c := deliveries[k].drop.value;
      deliveries := deliveries[k := deliveries[k].(drop := None)];
      RemoveClient(made[c].id);
    }

    /** The first half of the shutdown, under the lock: swaps the map for an empty one. */
    method BeginShutdown() returns (ok: bool)
      requires Valid()
      modifies `closed, `clients, `closing
      ensures Valid() && ok == Enabled(old(View()), Event.BeginShutdown)
      ensures View() == if ok then Step(old(View()), Event.BeginShutdown) else old(View())
    {
      if closed {
        return false;
      }
      closed := true;
      closing := clients.Values;
      clients := map[];
      return true;
    }

    /** One round of the second half of the shutdown. */
    method Close(c: nat)
      requires Valid() && Enabled(View(), Event.Close(c))
      modifies `closing, `made
      ensures Valid() && View() == Step(old(View()), Event.Close(c))
    {
      closing := closing - {c};
      made := CloseDone(made, c);
    }
  }
}
