/**
 * The handlers as they run: one object holds both collections, and each
 * handler fetches documents, assigns their fields and writes them back, in
 * the order the controllers do. Every method is proved to leave the store
 * exactly as the corresponding step function of `Registry` or `Negotiator`
 * says, and to keep `Valid`, so every store built by these methods satisfies
 * the soft-lock invariant (see `State.ValidIsLockInvariant`).
 *
 * The read-side handlers are the functions `Registry.MyEvents`,
 * `Registry.MySwappableEvents`, `Negotiator.SwappableSlots` and
 * `Negotiator.MySwapRequests`, applied to `Snapshot()`.
 */
module SlotStore {
  import opened Models
  import opened State
  import Registry
  import Negotiator

  class Store {
    var events: map<EventId, Event>
    var eventOrder: seq<EventId>
    var requests: map<ReqId, SwapRequest>
    var requestOrder: seq<ReqId>

    /** The current contents of both collections, as a value. */
    function Snapshot(): Db
      reads this
    {
      Db(events, eventOrder, requests, requestOrder)
    }

    ghost predicate Valid()
      reads this
    {
      State.Valid(Snapshot())
    }

    constructor ()
      ensures Valid() && Snapshot() == Empty
    {
      events, eventOrder := map[], [];
      requests, requestOrder := map[], [];
      EmptyIsValid();
    }

    /** `createEvent`; `id` is the fresh id the database assigns. */
    method CreateEvent(caller: UserId, id: EventId, title: string, startTime: int, endTime: int)
      returns (created: EventDoc)
      requires Valid() && id !in events && title != ""
      modifies this
      ensures Valid()
      ensures var s := Registry.CreateEvent(old(Snapshot()), caller, id, title, startTime, endTime);
        Snapshot() == s.db && Ok(created) == s.result
    {
      var event := Event(caller, title, startTime, endTime, Busy);
      events := events[id := event];
      eventOrder := eventOrder + [id];
      created := (id, event);
      Registry.CreateEventKeepsValid(old(Snapshot()), caller, id, title, startTime, endTime);
    }

    /** `updateEventStatus`. */
    method UpdateEventStatus(caller: UserId, id: EventId, status: string) returns (r: Result<EventDoc>)
      requires Valid() && (Registry.IsSettable(status) ==> id in events)
      modifies this
      ensures Valid()
      ensures var s := Registry.UpdateEventStatus(old(Snapshot()), caller, id, status);
        Snapshot() == s.db && r == s.result
    {
      if status != "BUSY" && status != "SWAPPABLE" {
        return Err(InvalidRequest);
      }
      var event := events[id];
      if event.owner != caller {
        return Err(Unauthorized);
      }
      if event.status == SwapPending {
        return Err(InvalidState);
      }
      event := event.(status := if status == "BUSY" then Busy else Swappable);
      events := events[id := event];
      r := Ok((id, event));
      Registry.UpdateEventStatusKeepsValid(old(Snapshot()), caller, id, status);
    }

    /** `deleteEvent`. */
    method DeleteEvent(caller: UserId, id: EventId) returns (r: Result<EventId>)
      requires Valid() && id in events
      modifies this
      ensures Valid()
      ensures var s := Registry.DeleteEvent(old(Snapshot()), caller, id);
        Snapshot() == s.db && r == s.result
    {
      var event := events[id];
      if event.owner != caller {
        return Err(Unauthorized);
      }
      if event.status == SwapPending {
        return Err(InvalidState);
      }
      events := events - {id};
      eventOrder := Listing.Filter(eventOrder, (x: EventId) => x != id);
      r := Ok(id);
      Registry.DeleteEventKeepsValid(old(Snapshot()), caller, id);
    }

    /** `createSwapRequest`; `rid` is the fresh id the database assigns. */
    method CreateSwapRequest(caller: UserId, mySlotId: EventId, theirSlotId: EventId, rid: ReqId)
      returns (r: Result<RequestDoc>)
      requires Valid() && rid !in requests
      modifies this
      ensures Valid()
      ensures var s := Negotiator.CreateSwapRequest(old(Snapshot()), caller, mySlotId, theirSlotId, rid);
        Snapshot() == s.db && r == s.result
    {
      if mySlotId !in events || theirSlotId !in events {
        return Err(NotFound);
      }
      var mySlot := events[mySlotId];
      var theirSlot := events[theirSlotId];
      if mySlot.owner != caller {
        return Err(Unauthorized);
      }
      if theirSlot.owner == caller {
        return Err(InvalidRequest);
      }
      if mySlot.status != Swappable || theirSlot.status != Swappable {
        return Err(InvalidState);
      }
      var request := SwapRequest(caller, theirSlot.owner, mySlotId, theirSlotId, Pending);
      mySlot := mySlot.(status := SwapPending);
      theirSlot := theirSlot.(status := SwapPending);
      events := events[mySlotId := mySlot];
      events := events[theirSlotId := theirSlot];
      requests := requests[rid := request];
      requestOrder := requestOrder + [rid];
      r := Ok((rid, request));
      Negotiator.ProposeKeepsValid(old(Snapshot()), caller, mySlotId, theirSlotId, rid);
    }

    /** `respondToSwapRequest`. */
    method RespondToSwapRequest(caller: UserId, rid: ReqId, accept: bool) returns (r: Result<RequestStatus>)
      requires Valid()
      modifies this
      ensures Valid()
      ensures var s := Negotiator.RespondToSwapRequest(old(Snapshot()), caller, rid, accept);
        Snapshot() == s.db && r == s.result
    {
      if rid !in requests {
        return Err(NotFound);
      }
      var request := requests[rid];
      if request.responder != caller {
        return Err(Unauthorized);
      }
      if request.status != Pending {
        return Err(AlreadyActioned);
      }
      if request.offeredSlot !in events || request.requestedSlot !in events {
        return Err(NotFound);
      }
      var offeredSlot := events[request.offeredSlot];
      var requestedSlot := events[request.requestedSlot];
      if !accept {
        request := request.(status := Rejected);
        offeredSlot := offeredSlot.(status := Swappable);
        requestedSlot := requestedSlot.(status := Swappable);
        requests := requests[rid := request];
        events := events[request.offeredSlot := offeredSlot];
        events := events[request.requestedSlot := requestedSlot];
        r := Ok(Rejected);
      } else {
        var originalRequesterId := offeredSlot.owner;
        var originalResponderId := requestedSlot.owner;
        offeredSlot := offeredSlot.(owner := originalResponderId);
        requestedSlot := requestedSlot.(owner := originalRequesterId);
        offeredSlot := offeredSlot.(status := Busy);
        requestedSlot := requestedSlot.(status := Busy);
        request := request.(status := Accepted);
        events := events[request.offeredSlot := offeredSlot];
        events := events[request.requestedSlot := requestedSlot];
        requests := requests[rid := request];
        r := Ok(Accepted);
      }
      Negotiator.RespondKeepsValid(old(Snapshot()), caller, rid, accept);
    }
  }

  /**
   * Two users each publish a slot and make it SWAPPABLE, and the first
   * proposes a trade: both slots are then locked, and the owner's delete of
   * the offered slot is refused and changes nothing.
   */
  method ProposeScenario(a: UserId, b: UserId, s1: EventId, s2: EventId, rid: ReqId) returns (store: Store)
    requires a != b && s1 != s2
    ensures fresh(store) && store.Valid()
    ensures rid in store.requests && store.requests[rid] == SwapRequest(a, b, s1, s2, Pending)
    ensures s1 in store.events && store.events[s1] == Event(a, "standup", 600, 660, SwapPending)
    ensures s2 in store.events && store.events[s2] == Event(b, "review", 840, 900, SwapPending)
    ensures Registry.DeleteEvent(store.Snapshot(), a, s1) == Step(store.Snapshot(), Err(InvalidState))
  {
    store := new Store();
    var e1 := store.CreateEvent(a, s1, "standup", 600, 660);
    var u1 := store.UpdateEventStatus(a, s1, "SWAPPABLE");
    assert store.events == map[s1 := Event(a, "standup", 600, 660, Swappable)];
    var e2 := store.CreateEvent(b, s2, "review", 840, 900);
    var u2 := store.UpdateEventStatus(b, s2, "SWAPPABLE");
    assert store.events == map[s1 := Event(a, "standup", 600, 660, Swappable),
                               s2 := Event(b, "review", 840, 900, Swappable)];
    assert store.requests == map[];
    var p := store.CreateSwapRequest(a, s1, s2, rid);
    assert p.Ok?;
    var locked := store.DeleteEvent(a, s1);
    assert locked == Err(InvalidState);
  }

  /**
   * Continuing the proposal above: accepting hands each slot to the other
   * user, both BUSY; rejecting frees both slots with their owners unchanged.
   * Either way a second answer is refused.
   */
  method RespondScenario(a: UserId, b: UserId, s1: EventId, s2: EventId, rid: ReqId, accept: bool)
    requires a != b && s1 != s2
  {
    var store := ProposeScenario(a, b, s1, s2, rid);
    var answer := store.RespondToSwapRequest(b, rid, accept);
    if accept {
      assert answer == Ok(Accepted);
      assert store.events[s1].owner == b && store.events[s2].owner == a;
      assert store.events[s1].status == Busy && store.events[s2].status == Busy;
    } else {
      assert answer == Ok(Rejected);
      assert store.events[s1].owner == a && store.events[s2].owner == b;
      assert store.events[s1].status == Swappable && store.events[s2].status == Swappable;
    }
    var again := store.RespondToSwapRequest(b, rid, !accept);
    assert again == Err(AlreadyActioned);
  }
}
