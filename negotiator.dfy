/**
 * The swap negotiator (backend/controllers/swap.controller.js): a user offers
 * one of their SWAPPABLE slots for another user's SWAPPABLE slot, which locks
 * both (SWAP_PENDING) under a PENDING request; the owner of the requested slot
 * then rejects (both slots SWAPPABLE again) or accepts (the two slots change
 * owners and become BUSY). A request leaves PENDING once and for all.
 */
module Negotiator {
  import opened Models
  import opened Listing
  import opened State

  /** `getSwappableSlots`: every other user's SWAPPABLE slot, earliest first. */
  function SwappableSlots(db: Db, caller: UserId): (r: seq<EventDoc>)
    requires Indexed(db)
    ensures SortedByStart(r)
    ensures forall d :: d in r <==> d.0 in db.events && d.1 == db.events[d.0] && d.1.status == Swappable && d.1.owner != caller
    ensures forall i, j :: 0 <= i < j < |r| ==> r[i].0 != r[j].0
  {
    SortedEvents(db, (e: Event) => e.status == Swappable && e.owner != caller)
  }

  /** The answer of `getMySwapRequests`. */
  datatype Inbox = Inbox(incoming: seq<RequestDoc>, outgoing: seq<RequestDoc>)

  /**
   * `getMySwapRequests`: `incoming` holds the PENDING requests the caller
   * must answer, `outgoing` every request the caller ever made, in any status.
   */
  function MySwapRequests(db: Db, caller: UserId): (r: Inbox)
    requires Indexed(db)
    ensures forall d :: d in r.incoming <==>
      d.0 in db.requests && d.1 == db.requests[d.0] && d.1.responder == caller && d.1.status == Pending
    ensures forall d :: d in r.outgoing <==>
      d.0 in db.requests && d.1 == db.requests[d.0] && d.1.requester == caller
    ensures forall i, j :: 0 <= i < j < |r.incoming| ==> r.incoming[i].0 != r.incoming[j].0
    ensures forall i, j :: 0 <= i < j < |r.outgoing| ==> r.outgoing[i].0 != r.outgoing[j].0
  {
    Inbox(
      SelectedRequests(db, (q: SwapRequest) => q.responder == caller && q.status == Pending),
      SelectedRequests(db, (q: SwapRequest) => q.requester == caller))
  }

  /**
   * `createSwapRequest`: the caller offers `mySlotId` for `theirSlotId`; the
   * new request is stored under the fresh id `rid`.
   */
  function CreateSwapRequest(db: Db, caller: UserId, mySlotId: EventId, theirSlotId: EventId, rid: ReqId): Step<RequestDoc>
    requires rid !in db.requests
  {
    if mySlotId !in db.events || theirSlotId !in db.events then Step(db, Err(NotFound))
    else
      var mySlot := db.events[mySlotId];
      var theirSlot := db.events[theirSlotId];
      if mySlot.owner != caller then Step(db, Err(Unauthorized))
      else if theirSlot.owner == caller then Step(db, Err(InvalidRequest))
      else if mySlot.status != Swappable || theirSlot.status != Swappable then Step(db, Err(InvalidState))
      else
        var request := SwapRequest(caller, theirSlot.owner, mySlotId, theirSlotId, Pending);
        var events := db.events[mySlotId := mySlot.(status := SwapPending)]
                               [theirSlotId := theirSlot.(status := SwapPending)];
        Step(Db(events, db.eventOrder, db.requests[rid := request], db.requestOrder + [rid]), Ok((rid, request)))
  }

  /**
   * `respondToSwapRequest`: the responder of request `rid` rejects it or,
   * with `accept`, carries out the exchange.
   */
  function RespondToSwapRequest(db: Db, caller: UserId, rid: ReqId, accept: bool): Step<RequestStatus> {
    if rid !in db.requests then Step(db, Err(NotFound))
    else
      var request := db.requests[rid];
      if request.responder != caller then Step(db, Err(Unauthorized))
      else if request.status != Pending then Step(db, Err(AlreadyActioned))
      else if request.offeredSlot !in db.events || request.requestedSlot !in db.events then Step(db, Err(NotFound))
      else
        var offered := db.events[request.offeredSlot];
        var requested := db.events[request.requestedSlot];
        if !accept then
          var events := db.events[request.offeredSlot := offered.(status := Swappable)]
                                 [request.requestedSlot := requested.(status := Swappable)];
          Step(db.(events := events, requests := db.requests[rid := request.(status := Rejected)]), Ok(Rejected))
        else
          var events := db.events[request.offeredSlot := offered.(owner := requested.owner, status := Busy)]
                                 [request.requestedSlot := requested.(owner := offered.owner, status := Busy)];
          Step(db.(events := events, requests := db.requests[rid := request.(status := Accepted)]), Ok(Accepted))
  }

  // ---------------------------------------------------------------------------
  // Proposing

  /**
   * The proposal's guards, in the order they are checked, each with its own
   * error; a refused proposal changes nothing.
   */
  lemma ProposeGuards(db: Db, caller: UserId, mySlotId: EventId, theirSlotId: EventId, rid: ReqId)
    requires rid !in db.requests
    ensures var s := CreateSwapRequest(db, caller, mySlotId, theirSlotId, rid);
      && (s.result.Err? ==> s.db == db)
      && (mySlotId !in db.events || theirSlotId !in db.events ==> s.result == Err(NotFound))
      && (mySlotId in db.events && theirSlotId in db.events ==>
            var mine, theirs := db.events[mySlotId], db.events[theirSlotId];
            && (mine.owner != caller ==> s.result == Err(Unauthorized))
            && (mine.owner == caller && theirs.owner == caller ==> s.result == Err(InvalidRequest))
            && ((mine.owner == caller && theirs.owner != caller &&
                 (mine.status != Swappable || theirs.status != Swappable)) ==> s.result == Err(InvalidState))
            && (s.result.Ok? <==>
                  mine.owner == caller && theirs.owner != caller &&
                  mine.status == Swappable && theirs.status == Swappable))
  {
  }

  /**
   * A successful proposal locks the two slots and records one PENDING request
   * of the caller to the requested slot's owner: two different slots, two
   * different users. Nothing else changes.
   */
  lemma ProposeEffect(db: Db, caller: UserId, mySlotId: EventId, theirSlotId: EventId, rid: ReqId)
    requires rid !in db.requests
    requires CreateSwapRequest(db, caller, mySlotId, theirSlotId, rid).result.Ok?
    ensures var s := CreateSwapRequest(db, caller, mySlotId, theirSlotId, rid);
      var q := s.db.requests[rid];
      && s.result.value == (rid, q)
      && q == SwapRequest(caller, db.events[theirSlotId].owner, mySlotId, theirSlotId, Pending)
      && mySlotId != theirSlotId
      && q.requester != q.responder
      && s.db.events.Keys == db.events.Keys
      && s.db.events[mySlotId] == db.events[mySlotId].(status := SwapPending)
      && s.db.events[theirSlotId] == db.events[theirSlotId].(status := SwapPending)
      && (forall e :: e in db.events && e != mySlotId && e != theirSlotId ==> s.db.events[e] == db.events[e])
      && s.db.eventOrder == db.eventOrder
      && s.db.requests.Keys == db.requests.Keys + {rid}
      && (forall r :: r in db.requests ==> s.db.requests[r] == db.requests[r])
      && s.db.requestOrder == db.requestOrder + [rid]
  {
  }

  lemma ProposeKeepsValid(db: Db, caller: UserId, mySlotId: EventId, theirSlotId: EventId, rid: ReqId)
    requires Valid(db) && rid !in db.requests
    ensures Valid(CreateSwapRequest(db, caller, mySlotId, theirSlotId, rid).db)
  {
    var s := CreateSwapRequest(db, caller, mySlotId, theirSlotId, rid);
    if s.result.Ok? {
      var t := s.db;
      var q := t.requests[rid];
      UnlockedIsUnclaimed(db, mySlotId);
      UnlockedIsUnclaimed(db, theirSlotId);
      assert rid !in db.requestOrder;
      AppendDistinct(db.requestOrder, rid);
      assert Indexed(t);
      forall r | IsPending(t, r) ensures LocksHeld(t, t.requests[r]) {
        if r != rid {
          assert LocksHeld(db, db.requests[r]);
        }
      }
      forall r1, r2 | IsPending(t, r1) && IsPending(t, r2) && r1 != r2
        ensures !References(t.requests[r2], t.requests[r1].offeredSlot)
        ensures !References(t.requests[r2], t.requests[r1].requestedSlot)
      {
        if r1 == rid {
          assert LocksHeld(db, db.requests[r2]);
        } else if r2 == rid {
          assert LocksHeld(db, db.requests[r1]);
        } else {
          assert IsPending(db, r1) && IsPending(db, r2);
        }
      }
      forall e | e in t.events && t.events[e].status == SwapPending
        ensures exists r :: IsPending(t, r) && References(t.requests[r], e)
      {
        if e == mySlotId || e == theirSlotId {
          assert IsPending(t, rid) && References(q, e);
        } else {
          assert e in db.events && db.events[e].status == SwapPending;
          var r :| IsPending(db, r) && References(db.requests[r], e);
          assert IsPending(t, r);
        }
      }
    }
  }

  // ---------------------------------------------------------------------------
  // Responding

  /**
   * The response's guards, in the order they are checked, each with its own
   * error; a refused response changes nothing.
   */
  lemma RespondGuards(db: Db, caller: UserId, rid: ReqId, accept: bool)
    ensures var s := RespondToSwapRequest(db, caller, rid, accept);
      && (s.result.Err? ==> s.db == db)
      && (rid !in db.requests ==> s.result == Err(NotFound))
      && (rid in db.requests ==>
            var q := db.requests[rid];
            && (q.responder != caller ==> s.result == Err(Unauthorized))
            && (q.responder == caller && q.status != Pending ==> s.result == Err(AlreadyActioned))
            && ((q.responder == caller && q.status == Pending &&
                 (q.offeredSlot !in db.events || q.requestedSlot !in db.events)) ==> s.result == Err(NotFound))
            && (s.result.Ok? <==>
                  q.responder == caller && q.status == Pending &&
                  q.offeredSlot in db.events && q.requestedSlot in db.events))
      && (s.result.Ok? ==> s.result.value == (if accept then Accepted else Rejected))
  {
  }

  /**
   * Rejecting marks the request REJECTED and releases both slots to
   * SWAPPABLE; owners and every other document stay as they were.
   */
  lemma RejectEffect(db: Db, caller: UserId, rid: ReqId)
    requires RespondToSwapRequest(db, caller, rid, false).result.Ok?
    ensures var s := RespondToSwapRequest(db, caller, rid, false);
      var q := db.requests[rid];
      && s.db.requests == db.requests[rid := q.(status := Rejected)]
      && s.db.requestOrder == db.requestOrder
      && s.db.events.Keys == db.events.Keys
      && s.db.eventOrder == db.eventOrder
      && s.db.events[q.offeredSlot] == db.events[q.offeredSlot].(status := Swappable)
      && s.db.events[q.requestedSlot] == db.events[q.requestedSlot].(status := Swappable)
      && (forall e :: e in db.events ==> s.db.events[e].owner == db.events[e].owner)
      && (forall e :: e in db.events && e != q.offeredSlot && e != q.requestedSlot ==> s.db.events[e] == db.events[e])
  {
  }

  /**
   * Accepting exchanges the owners of the two slots, sets both BUSY and marks
   * the request ACCEPTED; every other document stays as it was.
   */
  lemma AcceptEffect(db: Db, caller: UserId, rid: ReqId)
    requires RespondToSwapRequest(db, caller, rid, true).result.Ok?
    ensures var s := RespondToSwapRequest(db, caller, rid, true);
      var q := db.requests[rid];
      var o, r := q.offeredSlot, q.requestedSlot;
      && s.db.requests == db.requests[rid := q.(status := Accepted)]
      && s.db.requestOrder == db.requestOrder
      && s.db.events.Keys == db.events.Keys
      && s.db.eventOrder == db.eventOrder
      && s.db.events[o] == db.events[o].(owner := db.events[r].owner, status := Busy)
      && s.db.events[r] == db.events[r].(owner := db.events[o].owner, status := Busy)
      && (forall e :: e in db.events && e != o && e != r ==> s.db.events[e] == db.events[e])
  {
  }

  /**
   * In a consistent store the second existence check of a response never
   * fires, and the exchange hands the requested slot to the requester and the
   * offered slot to the responder.
   */
  lemma AcceptInValidStore(db: Db, caller: UserId, rid: ReqId)
    requires Valid(db) && IsPending(db, rid) && db.requests[rid].responder == caller
    ensures var s := RespondToSwapRequest(db, caller, rid, true);
      var q := db.requests[rid];
      && s.result == Ok(Accepted)
      && s.db.events[q.offeredSlot].owner == q.responder
      && s.db.events[q.requestedSlot].owner == q.requester
      && s.db.events[q.offeredSlot].status == Busy
      && s.db.events[q.requestedSlot].status == Busy
  {
    assert LocksHeld(db, db.requests[rid]);
  }

  /** A PENDING request's slots are present and still owned by its two parties. */
  lemma PendingSlotsPresent(db: Db, rid: ReqId)
    requires Valid(db) && IsPending(db, rid)
    ensures var q := db.requests[rid];
      && q.offeredSlot in db.events && q.requestedSlot in db.events
      && db.events[q.offeredSlot].owner == q.requester
      && db.events[q.requestedSlot].owner == q.responder
      && RespondToSwapRequest(db, q.responder, rid, true).result.Ok?
      && RespondToSwapRequest(db, q.responder, rid, false).result.Ok?
  {
    assert LocksHeld(db, db.requests[rid]);
  }

  /**
   * A request is answered once: after a successful response, any further
   * response to it fails (AlreadyActioned for the responder, Unauthorized for
   * anyone else) and leaves the first outcome in place.
   */
  lemma RespondIsFinal(db: Db, caller: UserId, rid: ReqId, accept: bool, caller2: UserId, accept2: bool)
    requires RespondToSwapRequest(db, caller, rid, accept).result.Ok?
    ensures var s1 := RespondToSwapRequest(db, caller, rid, accept);
      var s2 := RespondToSwapRequest(s1.db, caller2, rid, accept2);
      && s1.db.requests[rid].status == s1.result.value
      && s1.result.value != Pending
      && s2.db == s1.db
      && s2.result == (if caller2 == caller then Err(AlreadyActioned) else Err(Unauthorized))
  {
  }

  lemma RespondKeepsValid(db: Db, caller: UserId, rid: ReqId, accept: bool)
    requires Valid(db)
    ensures Valid(RespondToSwapRequest(db, caller, rid, accept).db)
  {
    var s := RespondToSwapRequest(db, caller, rid, accept);
    if s.result.Ok? {
      var t := s.db;
      var q := db.requests[rid];
      assert IsPending(db, rid);
      assert LocksHeld(db, q);
      assert Indexed(t);
      forall r | IsPending(t, r) ensures LocksHeld(t, t.requests[r]) {
        assert r != rid;
        assert IsPending(db, r);
        assert LocksHeld(db, db.requests[r]);
      }
      forall r1, r2 | IsPending(t, r1) && IsPending(t, r2) && r1 != r2
        ensures !References(t.requests[r2], t.requests[r1].offeredSlot)
        ensures !References(t.requests[r2], t.requests[r1].requestedSlot)
      {
        assert IsPending(db, r1) && IsPending(db, r2);
      }
      forall e | e in t.events && t.events[e].status == SwapPending
        ensures exists r :: IsPending(t, r) && References(t.requests[r], e)
      {
        assert e != q.offeredSlot && e != q.requestedSlot;
        assert e in db.events && db.events[e].status == SwapPending;
        var r :| IsPending(db, r) && References(db.requests[r], e);
        assert r != rid;
        assert IsPending(t, r);
      }
    }
  }
}
