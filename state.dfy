/**
 * The store both controllers work on: the Event and SwapRequest collections,
 * each as a map from id to document plus the order in which the documents
 * were inserted (the order a query without `.sort` reads them in).
 *
 * `Valid` is the consistency condition every handler preserves. Its heart is
 * the soft-lock invariant of the swap protocol: an event is SWAP_PENDING
 * exactly when one PENDING swap request refers to it.
 */
module State {
  import opened Models
  import opened Listing

  datatype Db = Db(
    events: map<EventId, Event>,
    eventOrder: seq<EventId>,
    requests: map<ReqId, SwapRequest>,
    requestOrder: seq<ReqId>)

  /** What a handler leaves behind: the new store and its answer to the caller. */
  datatype Step<T> = Step(db: Db, result: Result<T>)

  /** The store before any handler has run. */
  const Empty: Db := Db(map[], [], map[], [])

  /** Each collection's insertion order lists every stored id exactly once. */
  predicate Indexed(db: Db) {
    && Distinct(db.eventOrder)
    && (forall id :: id in db.eventOrder ==> id in db.events)
    && (forall id :: id in db.events ==> id in db.eventOrder)
    && Distinct(db.requestOrder)
    && (forall id :: id in db.requestOrder ==> id in db.requests)
    && (forall id :: id in db.requests ==> id in db.requestOrder)
  }

  /** The stored events with their ids, in insertion order. */
  function EventDocs(db: Db): seq<EventDoc>
    requires Indexed(db)
  {
    seq(|db.eventOrder|, i requires 0 <= i < |db.eventOrder| =>
      (db.eventOrder[i], db.events[db.eventOrder[i]]))
  }

  /** The stored swap requests with their ids, in insertion order. */
  function RequestDocs(db: Db): seq<RequestDoc>
    requires Indexed(db)
  {
    seq(|db.requestOrder|, i requires 0 <= i < |db.requestOrder| =>
      (db.requestOrder[i], db.requests[db.requestOrder[i]]))
  }

  /** The documents of the Event collection are exactly the stored events, once each. */
  lemma EventDocsExact(db: Db)
    requires Indexed(db)
    ensures forall d :: d in EventDocs(db) <==> d.0 in db.events && d.1 == db.events[d.0]
    ensures Distinct(EventDocs(db))
  {
    var docs := EventDocs(db);
    forall d: EventDoc | d.0 in db.events && d.1 == db.events[d.0] ensures d in docs {
      var i :| 0 <= i < |db.eventOrder| && db.eventOrder[i] == d.0;
      assert docs[i] == d;
    }
  }

  /** The documents of the SwapRequest collection are exactly the stored requests, once each. */
  lemma RequestDocsExact(db: Db)
    requires Indexed(db)
    ensures forall d :: d in RequestDocs(db) <==> d.0 in db.requests && d.1 == db.requests[d.0]
    ensures Distinct(RequestDocs(db))
  {
    var docs := RequestDocs(db);
    forall d: RequestDoc | d.0 in db.requests && d.1 == db.requests[d.0] ensures d in docs {
      var i :| 0 <= i < |db.requestOrder| && db.requestOrder[i] == d.0;
      assert docs[i] == d;
    }
  }

  /**
   * The events satisfying `keep`, sorted by ascending start time: what
   * `Event.find(filter).sort({ startTime: 1 })` returns.
   */
  function SortedEvents(db: Db, keep: Event -> bool): (r: seq<EventDoc>)
    requires Indexed(db)
    ensures SortedByStart(r)
    ensures forall d :: d in r <==> d.0 in db.events && d.1 == db.events[d.0] && keep(d.1)
    ensures forall i, j :: 0 <= i < j < |r| ==> r[i].0 != r[j].0
  {
    EventDocsExact(db);
    var picked := Filter(EventDocs(db), (d: EventDoc) => keep(d.1));
    var r := SortByStart(picked);
    SortKeepsElements(picked);
    assert forall d :: d in picked <==> d in EventDocs(db) && keep(d.1) by {
      forall d ensures d in picked <==> d in EventDocs(db) && keep(d.1) {
        if d in picked {
          var i :| 0 <= i < |picked| && picked[i] == d;
        }
        if d in EventDocs(db) && keep(d.1) {
          var i :| 0 <= i < |EventDocs(db)| && EventDocs(db)[i] == d;
        }
      }
    }
    r
  }

  /** The requests satisfying `keep`, in insertion order: what `SwapRequest.find(filter)` returns. */
  function SelectedRequests(db: Db, keep: SwapRequest -> bool): (r: seq<RequestDoc>)
    requires Indexed(db)
    ensures forall d :: d in r <==> d.0 in db.requests && d.1 == db.requests[d.0] && keep(d.1)
    ensures forall i, j :: 0 <= i < j < |r| ==> r[i].0 != r[j].0
  {
    RequestDocsExact(db);
    var r := Filter(RequestDocs(db), (d: RequestDoc) => keep(d.1));
    assert forall d :: d in r <==> d in RequestDocs(db) && keep(d.1) by {
      forall d ensures d in r <==> d in RequestDocs(db) && keep(d.1) {
        if d in r {
          var i :| 0 <= i < |r| && r[i] == d;
        }
        if d in RequestDocs(db) && keep(d.1) {
          var i :| 0 <= i < |RequestDocs(db)| && RequestDocs(db)[i] == d;
        }
      }
    }
    r
  }

  /** Is `rid` a stored request that is still PENDING? */
  predicate IsPending(db: Db, rid: ReqId) {
    rid in db.requests && db.requests[rid].status == Pending
  }

  /**
   * What a PENDING request holds: both its slots exist, are distinct and are
   * SWAP_PENDING, the requester still owns the offered slot and the responder
   * the requested one, and these are two different users.
   */
  predicate LocksHeld(db: Db, r: SwapRequest) {
    && r.offeredSlot in db.events
    && r.requestedSlot in db.events
    && r.offeredSlot != r.requestedSlot
    && db.events[r.offeredSlot].status == SwapPending
    && db.events[r.requestedSlot].status == SwapPending
    && db.events[r.offeredSlot].owner == r.requester
    && db.events[r.requestedSlot].owner == r.responder
    && r.requester != r.responder
  }

  /** Every PENDING request holds its locks. */
  ghost predicate AllLocksHeld(db: Db) {
    forall rid :: IsPending(db, rid) ==> LocksHeld(db, db.requests[rid])
  }

  /** The ids of the PENDING requests that refer to event `e`. */
  function PendingRefs(db: Db, e: EventId): set<ReqId> {
    set rid | rid in db.requests && db.requests[rid].status == Pending && References(db.requests[rid], e)
  }

  /** The soft-lock invariant: SWAP_PENDING iff exactly one PENDING request refers to the event. */
  ghost predicate LockInvariant(db: Db) {
    forall e :: e in db.events ==> (db.events[e].status == SwapPending <==> |PendingRefs(db, e)| == 1)
  }

  /** No slot is claimed by two PENDING requests at once. */
  ghost predicate PendingDisjoint(db: Db) {
    forall r1, r2 :: IsPending(db, r1) && IsPending(db, r2) && r1 != r2 ==>
      !References(db.requests[r2], db.requests[r1].offeredSlot) &&
      !References(db.requests[r2], db.requests[r1].requestedSlot)
  }

  /** Every SWAP_PENDING event is claimed by some PENDING request. */
  ghost predicate LocksClaimed(db: Db) {
    forall e :: e in db.events && db.events[e].status == SwapPending ==>
      exists rid :: IsPending(db, rid) && References(db.requests[rid], e)
  }

  /** The consistency condition every handler preserves. */
  ghost predicate Valid(db: Db) {
    Indexed(db) && AllLocksHeld(db) && PendingDisjoint(db) && LocksClaimed(db)
  }

  /**
   * `Valid` says no more than the soft-lock invariant does, once the
   * PENDING requests hold their locks: the two conditions are equivalent.
   */
  lemma ValidIsLockInvariant(db: Db)
    ensures Valid(db) <==> Indexed(db) && AllLocksHeld(db) && LockInvariant(db)
  {
    if Indexed(db) && AllLocksHeld(db) {
      if PendingDisjoint(db) && LocksClaimed(db) {
        DisjointClaimedGiveInvariant(db);
      }
      if LockInvariant(db) {
        InvariantGivesDisjoint(db);
        InvariantGivesClaimed(db);
      }
    }
  }

  lemma DisjointClaimedGiveInvariant(db: Db)
    requires AllLocksHeld(db) && PendingDisjoint(db) && LocksClaimed(db)
    ensures LockInvariant(db)
  {
    forall e | e in db.events
      ensures db.events[e].status == SwapPending <==> |PendingRefs(db, e)| == 1
    {
      var refs := PendingRefs(db, e);
      if db.events[e].status == SwapPending {
        var rid :| IsPending(db, rid) && References(db.requests[rid], e);
        assert refs == {rid} by {
          forall other | other in refs ensures other == rid {
            assert IsPending(db, other);
          }
        }
      }
      if |refs| == 1 {
        var rid :| rid in refs;
        assert LocksHeld(db, db.requests[rid]);
      }
    }
  }

  lemma InvariantGivesDisjoint(db: Db)
    requires AllLocksHeld(db) && LockInvariant(db)
    ensures PendingDisjoint(db)
  {
    forall r1, r2 | IsPending(db, r1) && IsPending(db, r2) && r1 != r2
      ensures !References(db.requests[r2], db.requests[r1].offeredSlot)
      ensures !References(db.requests[r2], db.requests[r1].requestedSlot)
    {
      var q := db.requests[r1];
      assert LocksHeld(db, q);
      SharedSlotCountsTwice(db, r1, r2, q.offeredSlot);
      SharedSlotCountsTwice(db, r1, r2, q.requestedSlot);
    }
  }

  /** A locked slot claimed by two PENDING requests breaks the invariant. */
  lemma SharedSlotCountsTwice(db: Db, r1: ReqId, r2: ReqId, e: EventId)
    requires LockInvariant(db)
    requires IsPending(db, r1) && IsPending(db, r2) && r1 != r2
    requires e in db.events && db.events[e].status == SwapPending
    requires References(db.requests[r1], e)
    ensures !References(db.requests[r2], e)
  {
    var refs := PendingRefs(db, e);
    assert |refs| == 1;
    if References(db.requests[r2], e) {
      assert {r1, r2} <= refs;
      assert |{r1, r2}| == 2;
      SubsetSize({r1, r2}, refs);
      assert false;
    }
  }

  lemma SubsetSize<T>(a: set<T>, b: set<T>)
    requires a <= b
    ensures |a| <= |b|
  {
    assert b == a + (b - a);
  }

  lemma InvariantGivesClaimed(db: Db)
    requires LockInvariant(db)
    ensures LocksClaimed(db)
  {
    forall e | e in db.events && db.events[e].status == SwapPending
      ensures exists rid :: IsPending(db, rid) && References(db.requests[rid], e)
    {
      var rid :| rid in PendingRefs(db, e);
      assert IsPending(db, rid);
    }
  }

  /** In a consistent store, no PENDING request refers to a slot that is not SWAP_PENDING. */
  lemma UnlockedIsUnclaimed(db: Db, e: EventId)
    requires Valid(db)
    requires e !in db.events || db.events[e].status != SwapPending
    ensures forall rid :: IsPending(db, rid) ==> !References(db.requests[rid], e)
  {
    forall rid | IsPending(db, rid) ensures !References(db.requests[rid], e) {
      assert LocksHeld(db, db.requests[rid]);
    }
  }

  /** The empty store is consistent. */
  lemma EmptyIsValid()
    ensures Valid(Empty)
  {
  }
}
