/** The event store behind the build history: an event is applied with its own time, but stored with the
    time at which it was appended, in whole seconds. */
module EventLog {
  import opened Common
  import opened Projection

  /** Times count nanoseconds. */
  const SECOND: Time := 1_000_000_000
  const HOUR: Time := 3600 * SECOND

  /** An event and the time at which it was appended to the store. */
  datatype Emission<R> = Emission(event: Event<R>, appended: Time)

  function WholeSeconds(t: Time): (r: Time)
    ensures r <= t < r + SECOND
  {
    t / SECOND * SECOND
  }

  /** What is read back for an emitted event. */
  function StoredEvent<R>(e: Emission<R>): Event<R> {
    e.event.(at := WholeSeconds(e.appended))
  }

  /** The events as they are applied live. */
  function Emitted<R>(log: seq<Emission<R>>): seq<Event<R>> {
    if log == [] then [] else Emitted(log[..|log| - 1]) + [Last(log).event]
  }

  /** The rows of the store. */
  function Stored<R>(log: seq<Emission<R>>): seq<Event<R>> {
    if log == [] then [] else Stored(log[..|log| - 1]) + [StoredEvent(Last(log))]
  }

  /** The rows that a rebuild reads at time `now`: those of up to an hour later. */
  function ReadBack<R>(rows: seq<Event<R>>, now: Time): (read: seq<Event<R>>)
    ensures |read| <= |rows|
  {
    if rows == [] then []
    else
      var before, e := ReadBack(rows[..|rows| - 1], now), Last(rows);
      if e.at <= WholeSeconds(now + HOUR) then before + [e] else before
  }

  /** A rebuild reads every row if and only if none was appended more than an hour later. */
  lemma {:induction false} AllReadIff<R>(log: seq<Emission<R>>, now: Time)
    ensures |Stored(log)| == |log|
    ensures ReadBack(Stored(log), now) == Stored(log) <==>
            forall e :: e in log ==> WholeSeconds(e.appended) <= WholeSeconds(now + HOUR)
  {
    if log != [] {
      var init, last := log[..|log| - 1], Last(log);
      AllReadIff(init, now);
      var rows := Stored(log);
      assert rows[..|rows| - 1] == Stored(init) && Last(rows) == StoredEvent(last);
      assert log == init + [last];
      SameEnds(ReadBack(Stored(init), now), Stored(init), StoredEvent(last));
    }
  }

  lemma SameEnds<T>(s: seq<T>, t: seq<T>, x: T)
    ensures s + [x] == t + [x] <==> s == t
    ensures |s| <= |t| ==> s != t + [x]
  {
    if s + [x] == t + [x] {
      assert s == (s + [x])[..|s|] && t == (t + [x])[..|t|];
    }
  }

  lemma StoredNext<R>(log: seq<Emission<R>>, e: Emission<R>)
    ensures Stored(log + [e]) == Stored(log) + [StoredEvent(e)]
    ensures Emitted(log + [e]) == Emitted(log) + [e.event]
  {
    assert (log + [e])[..|log|] == log;
  }

  lemma LiveNext<R>(events: seq<Event<R>>, e: Event<R>, maxSize: nat)
    ensures Live(events + [e], maxSize) == Applied(Live(events, maxSize), e, maxSize)
  {
    assert (events + [e])[..|events|] == events;
  }

  // ---------------------------------------------------------------- the implementation

  /** Stores events and applies them to the projection. */
  class EventEmitter<R> {
    const projection: BuildHistoryProjection<R>
    var rows: seq<Event<R>>
    ghost var log: seq<Emission<R>>

    /** The store holds everything emitted so far. */
    ghost predicate Valid()
      reads this, projection
    {
      projection.Valid() && rows == Stored(log)
    }

    /** The store may hold events from before. */
    constructor (projection: BuildHistoryProjection<R>, rows: seq<Event<R>>, ghost log: seq<Emission<R>>)
      requires projection.Valid() && rows == Stored(log)
      ensures Valid() && this.projection == projection && this.log == log
    {
      this.projection := projection;
      this.rows, this.log := rows, log;
    }

    /** Appends the event at time `now`; only an event that was stored is applied. */
    method EmitEvent(e: Event<R>, now: Time, appendSucceeds: bool) returns (ok: bool)
      requires Valid()
      modifies this, projection, projection.builds.Values
      ensures Valid() && ok == appendSucceeds
      ensures log == if ok then old(log) + [Emission(e, now)] else old(log)
      ensures projection.State() == if ok then Applied(old(projection.State()), e, projection.maxSize)
                                    else old(projection.State())
      ensures fresh(projection.builds.Values - old(projection.builds.Values))
    {
      if !appendSucceeds {
        return false;
      }
      StoredNext(log, Emission(e, now));
      rows := rows + [e.(at := WholeSeconds(now))];
      log := log + [Emission(e, now)];
      projection.Apply(e);
      return true;
    }

    /** What a restart does: whatever the projection held, it is rebuilt from the store. */
    method Restart(now: Time)
      requires Valid()
      modifies projection
      ensures Valid() && log == old(log)
      ensures projection.State() == Rebuilt(ReadBack(Stored(log), now), projection.maxSize)
    {
      projection.Rebuild(ReadBack(rows, now));
    }
  }
}
