/**
 * The two persisted record kinds of the slot swapper and the identifiers that
 * link them (backend/models/event.model.js, backend/models/swapRequest.model.js).
 *
 * Identifiers are opaque: users, events and swap requests are referred to by
 * ids that can only be compared for equality. Instants are plain integers.
 */
module Models {

  /** Identifier of a user (the `User` collection is not part of this model). */
  type UserId(==, !new)

  /** Identifier of a stored Event. */
  type EventId(==, !new)

  /** Identifier of a stored SwapRequest. */
  type ReqId(==, !new)

  /** The three values the Event schema allows for `status`. */
  datatype EventStatus = Busy | Swappable | SwapPending

  /**
   * A time slot. Every field is required by the schema; nothing relates
   * `startTime` to `endTime`, so an event may well end before it starts.
   */
  datatype Event = Event(
    owner: UserId,
    title: string,
    startTime: int,
    endTime: int,
    status: EventStatus)

  /** The three values the SwapRequest schema allows for `status`. */
  datatype RequestStatus = Pending | Accepted | Rejected

  /**
   * A negotiation record. `requester` offers `offeredSlot` (their own slot)
   * for `requestedSlot`, whose owner is `responder`. All four references are
   * required by the schema.
   */
  datatype SwapRequest = SwapRequest(
    requester: UserId,
    responder: UserId,
    offeredSlot: EventId,
    requestedSlot: EventId,
    status: RequestStatus)

  /** A stored event together with its id, as a query returns it. */
  type EventDoc = (EventId, Event)

  /** A stored swap request together with its id. */
  type RequestDoc = (ReqId, SwapRequest)

  /** Does the request name event `e` as one of its two slots? */
  predicate References(r: SwapRequest, e: EventId) {
    r.offeredSlot == e || r.requestedSlot == e
  }

  /** The ways a handler refuses a call; each maps to one HTTP status. */
  datatype Error =
    | NotFound          // 404
    | Unauthorized      // 401: the caller is not the owner / the responder
    | InvalidRequest    // 400: self-swap, or a status a user may not set
    | InvalidState      // 400: a slot is not SWAPPABLE, or is SWAP_PENDING
    | AlreadyActioned   // 400: the request has left PENDING

  datatype Result<T> = Ok(value: T) | Err(error: Error)
}
