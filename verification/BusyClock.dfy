/** The upload's busy clock (`BusyClock`, cli/src/commands.rs): the time with at least one
    part on the wire, kept as a count, a start and a total while sends overlap. */
module BusyClocks {
  import opened Hashing

  datatype Event = Began(at: nat) | Finished(at: nat)

  /** How many sends are on the wire at an instant, by the history of begins and ends. */
  function OnWire(events: seq<Event>, t: nat): int {
    if events == [] then 0
    else
      var e := events[|events| - 1];
      OnWire(events[..|events| - 1], t) + if e.at > t then 0 else if e.Began? then 1 else -1
  }

  /** The instants before `now` with something on the wire: the union of the sends'
      intervals, counted. */
  function BusyTime(events: seq<Event>, now: nat): (n: nat)
    ensures n <= now
  {
    if now == 0 then 0 else BusyTime(events, now - 1) + if OnWire(events, now - 1) > 0 then 1 else 0
  }

  function Balance(events: seq<Event>): int {
    if events == [] then 0
    else Balance(events[..|events| - 1]) + if events[|events| - 1].Began? then 1 else -1
  }

  ghost predicate Past(events: seq<Event>, now: nat) {
    forall i :: 0 <= i < |events| ==> events[i].at <= now
  }

  lemma {:induction false} OnWireAfter(events: seq<Event>, t: nat)
    requires Past(events, t)
    ensures OnWire(events, t) == Balance(events)
  {
    if events != [] {
      OnWireAfter(events[..|events| - 1], t);
    }
  }

  /** While nothing happens, the busy time grows with the clock or not at all. */
  lemma {:induction false} TimePasses(events: seq<Event>, from: nat, later: nat)
    requires Past(events, from) && from <= later
    ensures BusyTime(events, later) == BusyTime(events, from) + if Balance(events) > 0 then later - from else 0
    decreases later
  {
    if from < later {
      TimePasses(events, from, later - 1);
      OnWireAfter(events, later - 1);
    }
  }

  /** An event now changes nothing before now. */
  lemma {:induction false} PastIsSettled(events: seq<Event>, e: Event, now: nat)
    requires now <= e.at
    ensures BusyTime(events + [e], now) == BusyTime(events, now)
  {
    if now > 0 {
      PastIsSettled(events, e, now - 1);
      assert (events + [e])[..|events|] == events;
    }
  }

  class BusyClock {
    var inFlight: nat
    var since: Option<nat>
    var total: nat
    ghost var events: seq<Event>

    /** The total, and the open stretch if there is one, make up the busy time so far. */
    ghost predicate Valid(now: nat)
      reads this
    {
      && Past(events, now) && Balance(events) == inFlight
      && (since.Some? <==> inFlight > 0) && (since.Some? ==> since.value <= now)
      && total + (if since.Some? then now - since.value else 0) == BusyTime(events, now)
    }

    constructor (now: nat)
      ensures Valid(now) && events == [] && inFlight == 0
    {
      inFlight, since, total, events := 0, None, 0, [];
      new;
      TimePasses([], 0, now);
    }

    method Begin(ghost before: nat, now: nat)
      requires Valid(before) && before <= now
      modifies this
      ensures Valid(now) && events == old(events) + [Began(now)] && inFlight == old(inFlight) + 1
    {
      TimePasses(events, before, now);
      PastIsSettled(events, Began(now), now);
      if inFlight == 0 {
        since := Some(now);
      }
      inFlight := inFlight + 1;
      events := events + [Began(now)];
    }

    /** When the last send ends, the total is exactly the time something was on the wire,
        which is never more than the time that has passed. */
    method End(ghost before: nat, now: nat)
      requires Valid(before) && before <= now && inFlight > 0
      modifies this
      ensures Valid(now) && events == old(events) + [Finished(now)] && inFlight == old(inFlight) - 1
      ensures inFlight == 0 ==> total == BusyTime(events, now) <= now
    {
      TimePasses(events, before, now);
      PastIsSettled(events, Finished(now), now);
      inFlight := inFlight - 1;
      if inFlight == 0 {
        if since.Some? {
          total := total + (now - since.value);
          since := None;
        }
      }
      events := events + [Finished(now)];
    }
  }

  /** Ends no earlier than the first begin bound the total by the wall clock from there. */
  lemma {:induction false} NeverMoreThanWall(events: seq<Event>, start: nat, now: nat)
    requires forall i :: 0 <= i < |events| ==> start <= events[i].at
    ensures BusyTime(events, now) <= if start <= now then now - start else 0
    decreases now
  {
    if now > 0 {
      NeverMoreThanWall(events, start, now - 1);
      if now - 1 < start {
        NotYet(events, now - 1);
      }
    }
  }

  lemma {:induction false} NotYet(events: seq<Event>, t: nat)
    requires forall i :: 0 <= i < |events| ==> t < events[i].at
    ensures OnWire(events, t) == 0
  {
    if events != [] {
      NotYet(events[..|events| - 1], t);
    }
  }
}
