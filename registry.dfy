/**
 * The slot registry (backend/controllers/event.controller.js): a user creates
 * slots, lists them, toggles them between BUSY and SWAPPABLE and deletes them.
 * Only the owner may change a slot, and never while it is SWAP_PENDING.
 *
 * Each handler is a function from the store before the call to the store
 * after it and the answer; `SlotStore.Store` performs the same steps in place.
 */
module Registry {
  import opened Models
  import opened Listing
  import opened State

  /**
   * `createEvent`: a new BUSY slot owned by the caller under a fresh id. The
   * schema marks `title` required, so saving an empty title throws; the title
   * is required to be non-empty here.
   */
  function CreateEvent(db: Db, caller: UserId, id: EventId, title: string, startTime: int, endTime: int): Step<EventDoc>
    requires id !in db.events && title != ""
  {
    var ev := Event(caller, title, startTime, endTime, Busy);
    Step(db.(events := db.events[id := ev], eventOrder := db.eventOrder + [id]), Ok((id, ev)))
  }

  /** `getMyEvents`: the caller's slots, earliest first. */
  function MyEvents(db: Db, caller: UserId): (r: seq<EventDoc>)
    requires Indexed(db)
    ensures SortedByStart(r)
    ensures forall d :: d in r <==> d.0 in db.events && d.1 == db.events[d.0] && d.1.owner == caller
    ensures forall i, j :: 0 <= i < j < |r| ==> r[i].0 != r[j].0
  {
    SortedEvents(db, (e: Event) => e.owner == caller)
  }

  /** `getMySwappableEvents`: the caller's SWAPPABLE slots, earliest first. */
  function MySwappableEvents(db: Db, caller: UserId): (r: seq<EventDoc>)
    requires Indexed(db)
    ensures SortedByStart(r)
    ensures forall d :: d in r <==> d.0 in db.events && d.1 == db.events[d.0] && d.1.owner == caller && d.1.status == Swappable
    ensures forall i, j :: 0 <= i < j < |r| ==> r[i].0 != r[j].0
  {
    SortedEvents(db, (e: Event) => e.owner == caller && e.status == Swappable)
  }

  /** The only two status strings `updateEventStatus` accepts. */
  predicate IsSettable(status: string) {
    status == "BUSY" || status == "SWAPPABLE"
  }

  function ParseSettable(status: string): EventStatus
    requires IsSettable(status)
  {
    if status == "BUSY" then Busy else Swappable
  }

  /**
   * `updateEventStatus`. The status string is checked before the event is
   * looked up; the handler does not guard against a missing event (it throws),
   * hence the precondition, which only applies once the string is accepted.
   */
  function UpdateEventStatus(db: Db, caller: UserId, id: EventId, status: string): Step<EventDoc>
    requires IsSettable(status) ==> id in db.events
  {
    if !IsSettable(status) then Step(db, Err(InvalidRequest))
    else
      var ev := db.events[id];
      if ev.owner != caller then Step(db, Err(Unauthorized))
      else if ev.status == SwapPending then Step(db, Err(InvalidState))
      else
        var updated := ev.(status := ParseSettable(status));
        Step(db.(events := db.events[id := updated]), Ok((id, updated)))
  }

  /** `deleteEvent`; like `updateEventStatus` it does not handle a missing event. */
  function DeleteEvent(db: Db, caller: UserId, id: EventId): Step<EventId>
    requires id in db.events
  {
    var ev := db.events[id];
    if ev.owner != caller then Step(db, Err(Unauthorized))
    else if ev.status == SwapPending then Step(db, Err(InvalidState))
    else Step(db.(events := db.events - {id}, eventOrder := Filter(db.eventOrder, (x: EventId) => x != id)), Ok(id))
  }

  // ---------------------------------------------------------------------------
  // What the handlers promise

  /** Creating a slot adds one BUSY event owned by the caller and touches nothing else. */
  lemma CreateEventEffect(db: Db, caller: UserId, id: EventId, title: string, startTime: int, endTime: int)
    requires id !in db.events && title != ""
    ensures var s := CreateEvent(db, caller, id, title, startTime, endTime);
      && s.result.Ok?
      && s.result.value.0 == id
      && s.db.events.Keys == db.events.Keys + {id}
      && s.db.events[id] == s.result.value.1
      && s.db.events[id].owner == caller
      && s.db.events[id].status == Busy
      && s.db.events[id].title == title
      && s.db.events[id].startTime == startTime
      && s.db.events[id].endTime == endTime
      && (forall e :: e in db.events ==> s.db.events[e] == db.events[e])
      && s.db.eventOrder == db.eventOrder + [id]
      && s.db.requests == db.requests
      && s.db.requestOrder == db.requestOrder
  {
  }

  /** A created slot shows up in its owner's listing; every other user's listing is unchanged. */
  lemma CreatedEventIsListed(db: Db, caller: UserId, other: UserId, id: EventId, title: string, startTime: int, endTime: int)
    requires Valid(db) && id !in db.events && title != "" && other != caller
    ensures var s := CreateEvent(db, caller, id, title, startTime, endTime);
      && Indexed(s.db)
      && s.result.value in MyEvents(s.db, caller)
      && (forall d :: d in MyEvents(s.db, other) <==> d in MyEvents(db, other))
  {
    CreateEventKeepsValid(db, caller, id, title, startTime, endTime);
  }

  lemma CreateEventKeepsValid(db: Db, caller: UserId, id: EventId, title: string, startTime: int, endTime: int)
    requires Valid(db) && id !in db.events && title != ""
    ensures Valid(CreateEvent(db, caller, id, title, startTime, endTime).db)
  {
    var s := CreateEvent(db, caller, id, title, startTime, endTime).db;
    assert id !in db.eventOrder;
    AppendDistinct(db.eventOrder, id);
    assert Indexed(s);
    forall rid | IsPending(s, rid) ensures LocksHeld(s, s.requests[rid]) {
      assert LocksHeld(db, db.requests[rid]);
    }
    assert PendingDisjoint(s) by {
      assert s.requests == db.requests;
    }
    forall e | e in s.events && s.events[e].status == SwapPending
      ensures exists rid :: IsPending(s, rid) && References(s.requests[rid], e)
    {
      assert e in db.events && db.events[e].status == SwapPending;
    }
  }

  /**
   * `updateEventStatus` checks, in this order: the status string, then
   * ownership, then the soft lock. A refused call changes nothing; an accepted
   * one sets that one event's status to the requested value and nothing else.
   */
  lemma UpdateEventStatusOutcome(db: Db, caller: UserId, id: EventId, status: string)
    requires IsSettable(status) ==> id in db.events
    ensures var s := UpdateEventStatus(db, caller, id, status);
      && (s.result.Err? ==> s.db == db)
      && (!IsSettable(status) ==> s.result == Err(InvalidRequest))
      && (IsSettable(status) && db.events[id].owner != caller ==> s.result == Err(Unauthorized))
      && (IsSettable(status) && db.events[id].owner == caller && db.events[id].status == SwapPending ==>
            s.result == Err(InvalidState))
      && (s.result.Ok? <==>
            IsSettable(status) && db.events[id].owner == caller && db.events[id].status != SwapPending)
      && (s.result.Ok? ==>
            && s.db.events.Keys == db.events.Keys
            && s.db.events[id] == db.events[id].(status := ParseSettable(status))
            && s.result.value == (id, s.db.events[id])
            && (forall e :: e in db.events && e != id ==> s.db.events[e] == db.events[e])
            && s.db.eventOrder == db.eventOrder
            && s.db.requests == db.requests
            && s.db.requestOrder == db.requestOrder)
  {
  }

  /** A user can only ever set BUSY or SWAPPABLE; asking for SWAP_PENDING is refused outright. */
  lemma NoDirectLock(db: Db, caller: UserId, id: EventId, status: string)
    requires IsSettable(status) ==> id in db.events
    ensures var s := UpdateEventStatus(db, caller, id, status);
      && (status == "SWAP_PENDING" ==> s.result == Err(InvalidRequest) && s.db == db)
      && (s.result.Ok? ==> s.db.events[id].status in {Busy, Swappable})
  {
  }

  /**
   * `deleteEvent` checks ownership, then the soft lock. A refused call
   * changes nothing; an accepted one removes exactly that event.
   */
  lemma DeleteEventOutcome(db: Db, caller: UserId, id: EventId)
    requires id in db.events
    ensures var s := DeleteEvent(db, caller, id);
      && (s.result.Err? ==> s.db == db)
      && (db.events[id].owner != caller ==> s.result == Err(Unauthorized))
      && (db.events[id].owner == caller && db.events[id].status == SwapPending ==> s.result == Err(InvalidState))
      && (s.result.Ok? <==> db.events[id].owner == caller && db.events[id].status != SwapPending)
      && (s.result.Ok? ==>
            && s.db.events.Keys == db.events.Keys - {id}
            && (forall e :: e in s.db.events ==> s.db.events[e] == db.events[e])
            && (forall e :: e in s.db.eventOrder <==> e in db.eventOrder && e != id)
            && s.db.requests == db.requests
            && s.db.requestOrder == db.requestOrder)
  {
    FilterMembers(db.eventOrder, (x: EventId) => x != id);
  }

  /** While a slot is SWAP_PENDING neither its owner nor anyone else can toggle or delete it. */
  lemma LockedSlotIsFrozen(db: Db, caller: UserId, id: EventId, status: string)
    requires id in db.events && db.events[id].status == SwapPending
    ensures UpdateEventStatus(db, caller, id, status).result.Err?
    ensures UpdateEventStatus(db, caller, id, status).db == db
    ensures DeleteEvent(db, caller, id).result.Err?
    ensures DeleteEvent(db, caller, id).db == db
  {
  }

  lemma UpdateEventStatusKeepsValid(db: Db, caller: UserId, id: EventId, status: string)
    requires Valid(db) && (IsSettable(status) ==> id in db.events)
    ensures Valid(UpdateEventStatus(db, caller, id, status).db)
  {
    var s := UpdateEventStatus(db, caller, id, status);
    if s.result.Ok? {
      var t := s.db;
      UnlockedIsUnclaimed(db, id);
      assert Indexed(t);
      forall rid | IsPending(t, rid) ensures LocksHeld(t, t.requests[rid]) {
        assert LocksHeld(db, db.requests[rid]);
      }
      assert PendingDisjoint(t) by {
        assert t.requests == db.requests;
      }
      forall e | e in t.events && t.events[e].status == SwapPending
        ensures exists rid :: IsPending(t, rid) && References(t.requests[rid], e)
      {
        assert e != id;
        assert e in db.events && db.events[e].status == SwapPending;
      }
    }
  }

  lemma DeleteEventKeepsValid(db: Db, caller: UserId, id: EventId)
    requires Valid(db) && id in db.events
    ensures Valid(DeleteEvent(db, caller, id).db)
  {
    var s := DeleteEvent(db, caller, id);
    if s.result.Ok? {
      var t := s.db;
      UnlockedIsUnclaimed(db, id);
      FilterMembers(db.eventOrder, (x: EventId) => x != id);
      assert Indexed(t);
      forall rid | IsPending(t, rid) ensures LocksHeld(t, t.requests[rid]) {
        assert LocksHeld(db, db.requests[rid]);
      }
      assert PendingDisjoint(t) by {
        assert t.requests == db.requests;
      }
      forall e | e in t.events && t.events[e].status == SwapPending
        ensures exists rid :: IsPending(t, rid) && References(t.requests[rid], e)
      {
        assert e in db.events && db.events[e].status == SwapPending;
      }
    }
  }
}
