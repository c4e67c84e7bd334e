# Slot swapper: the swap protocol in Dafny

This project models the core of the slot-swapper backend, the protocol that
lets users trade calendar slots. It has two cooperating parts over one store.

- **Slot registry** (`backend/controllers/event.controller.js`). A user creates
  slots, which always start BUSY. They list their own slots (all of them, or
  only the SWAPPABLE ones) by ascending start time. The owner toggles a slot
  between BUSY and SWAPPABLE and may delete it. Neither is possible while the
  slot is SWAP_PENDING, the soft lock held during a negotiation.
- **Swap negotiator** (`backend/controllers/swap.controller.js`).
  - A user offers one of their SWAPPABLE slots for another user's SWAPPABLE
    slot. The guards are checked in order: both slots exist, the caller owns
    the offered slot, the caller does not own the requested slot, both slots
    are SWAPPABLE.
  - A successful proposal locks both slots and records a PENDING request. Its
    responder is the owner of the requested slot.
  - Only that responder may answer, and only once. Rejecting frees both slots
    (SWAPPABLE). Accepting exchanges the two slots' owners, sets both BUSY and
    marks the request ACCEPTED.
  - Two queries list other users' SWAPPABLE slots and a user's incoming and
    outgoing requests.

The two Mongoose schemas become datatypes in `models.dfy`.
- `EventStatus` has exactly the three values the event schema's enum allows
  (backend/models/event.model.js:13-17).
- `RequestStatus` has exactly the three values of the swap-request schema
  (backend/models/swapRequest.model.js:29-34).
- Every schema field is required, so every datatype field is mandatory. For
  `title` the schema's `required` also refuses the empty string, so an
  event is created only with a non-empty title (see "## Left out").
- Nothing relates `startTime` to `endTime`, and the model assumes nothing about
  them either.
- Both handlers that create documents set the status explicitly: BUSY for a new
  event, PENDING for a new request. These equal the schema defaults.

## Layout

- `models.dfy` (`Models`): ids as opaque types with equality, the two records,
  the error kinds and `Result`.
- `listing.dfy` (`Listing`): filtering, and sorting by ascending `startTime`
  (insertion sort, proved sorted and a permutation).
- `state.dfy` (`State`): the store value `Db`, with both collections as maps
  plus their insertion order. It defines the consistency condition `Valid`
  and proves that it amounts to the soft-lock invariant.
- `registry.dfy` (`Registry`) and `negotiator.dfy` (`Negotiator`): each
  handler as a step function from the store before a call to the store after
  it plus the answer, the read-side queries, and the lemmas.
- `store.dfy` (`SlotStore`): the class `Store` whose methods carry out the
  handlers by updating the maps in place, as the controllers do.
  - Each method is proved to produce exactly the step function's store and
    answer, and to keep `Valid`.
  - The constructor establishes `Valid`, so every store built through these
    methods satisfies the soft-lock invariant.
  - `ProposeScenario` builds two SWAPPABLE slots and proposes a trade;
    `RespondScenario` continues it with an accept or a reject and a refused
    second answer.

The soft-lock invariant: an event is SWAP_PENDING exactly when exactly one
PENDING request refers to it. `Valid` strengthens it into an inductive
condition. Every PENDING request holds its locks: both slots exist, are
distinct, are SWAP_PENDING, and are still owned by the requester and the
responder, who are different users. `State.ValidIsLockInvariant` proves that
`Valid` is equivalent to "both insertion orders list each stored id once, the
PENDING requests hold their locks, and the soft-lock invariant holds".

Error outcomes map to the handlers' HTTP statuses:
- `NotFound`: 404.
- `Unauthorized`: 401.
- `InvalidRequest`: 400. Used for a self-swap and for a status string other
  than BUSY/SWAPPABLE.
- `InvalidState`: 400. Used for a slot that is not SWAPPABLE, or is
  SWAP_PENDING.
- `AlreadyActioned`: 400.

## Model

| member | source | states |
|---|---|---|
| Listing.SortByStart | backend/controllers/event.controller.js:21 | the result is ordered by ascending startTime and is a permutation of the input; no document is lost or repeated |
| State.ValidIsLockInvariant | backend/controllers/swap.controller.js:36-56 | the consistency condition is equivalent to: every PENDING request holds its locks, and an event is SWAP_PENDING iff exactly one PENDING request refers to it |
| State.UnlockedIsUnclaimed | backend/controllers/swap.controller.js:36-38 | in a consistent store no PENDING request refers to a slot that is missing or not SWAP_PENDING |
| Registry.MyEvents | backend/controllers/event.controller.js:21 | exactly the caller's events, each once, sorted by ascending startTime |
| Registry.MySwappableEvents | backend/controllers/event.controller.js:27-30 | exactly the caller's SWAPPABLE events, each once, sorted by ascending startTime |
| Registry.CreateEventEffect | backend/controllers/event.controller.js:7-15 | creation adds one event under the new id, owned by the caller, BUSY, with the given title and times (no order between them required), appended to the event order; existing events, all requests and the request order are untouched |
| Registry.CreatedEventIsListed | backend/controllers/event.controller.js:20-22 | a created event appears in its owner's listing, and every other user's listing has the same members as before |
| Registry.CreateEventKeepsValid | backend/controllers/event.controller.js:7-15 | creating an event preserves the consistency condition |
| Registry.UpdateEventStatusOutcome | backend/controllers/event.controller.js:38-54 | guards in order: a status other than BUSY/SWAPPABLE gives InvalidRequest before any lookup; a non-owner gives Unauthorized; a SWAP_PENDING event gives InvalidState; a refusal changes nothing; success changes only that event's status, to the requested one |
| Registry.NoDirectLock | backend/controllers/event.controller.js:38-40 | asking for SWAP_PENDING is always refused with InvalidRequest; a successful update leaves BUSY or SWAPPABLE |
| Registry.DeleteEventOutcome | backend/controllers/event.controller.js:62-70 | a non-owner gives Unauthorized; a SWAP_PENDING event gives InvalidState; a refusal changes nothing; success removes exactly that event and nothing else |
| Registry.LockedSlotIsFrozen | backend/controllers/event.controller.js:48-68 | while an event is SWAP_PENDING, both the status update and the delete fail for every caller and leave the store unchanged |
| Registry.UpdateEventStatusKeepsValid | backend/controllers/event.controller.js:48-54 | a status update preserves the consistency condition |
| Registry.DeleteEventKeepsValid | backend/controllers/event.controller.js:66-70 | a delete preserves the consistency condition |
| Negotiator.SwappableSlots | backend/controllers/swap.controller.js:8-13 | exactly the SWAPPABLE events not owned by the caller, each once, sorted by ascending startTime |
| Negotiator.MySwapRequests | backend/controllers/swap.controller.js:142-155 | incoming is exactly the PENDING requests whose responder is the caller; outgoing is exactly every request whose requester is the caller, in any status; no request is listed twice |
| Negotiator.ProposeGuards | backend/controllers/swap.controller.js:27-38 | guards in order: a missing slot gives NotFound; an offered slot not owned by the caller gives Unauthorized; a requested slot owned by the caller gives InvalidRequest; a slot that is not SWAPPABLE gives InvalidState; a refusal changes nothing; success iff all guards pass |
| Negotiator.ProposeEffect | backend/controllers/swap.controller.js:41-56 | success locks both slots (SWAP_PENDING) and adds one PENDING request (requester the caller, responder the requested slot's owner); the two slots are distinct and the two users differ; nothing else changes |
| Negotiator.ProposeKeepsValid | backend/controllers/swap.controller.js:36-56 | a proposal preserves the consistency condition |
| Negotiator.RespondGuards | backend/controllers/swap.controller.js:71-89 | guards in order: a missing request gives NotFound; a caller other than the stored responder gives Unauthorized; a request that is no longer PENDING gives AlreadyActioned; a missing slot gives NotFound; a refusal changes nothing |
| Negotiator.RejectEffect | backend/controllers/swap.controller.js:91-99 | rejection marks the request REJECTED and sets only the status of both slots to SWAPPABLE, keeping their owner, title and times; every other event and request is untouched |
| Negotiator.AcceptEffect | backend/controllers/swap.controller.js:110-126 | acceptance gives the offered slot the requested slot's old owner and vice versa, sets both BUSY and marks the request ACCEPTED; every other document is untouched |
| Negotiator.AcceptInValidStore | backend/controllers/swap.controller.js:111-119 | in a consistent store, accepting a PENDING request always succeeds; the offered slot goes to the responder and the requested slot to the requester, both BUSY |
| Negotiator.PendingSlotsPresent | backend/models/swapRequest.model.js:11-22 | in a consistent store a PENDING request's slots exist; the requester owns the offered slot and the responder owns the requested one; so the slot-existence check at respond time never fails |
| Negotiator.RespondIsFinal | backend/controllers/swap.controller.js:80-82 | after a successful response, the request's status is the outcome and not PENDING; any second response fails (AlreadyActioned for the responder, Unauthorized otherwise) and changes nothing |
| Negotiator.RespondKeepsValid | backend/controllers/swap.controller.js:91-126 | rejecting or accepting preserves the consistency condition |
| SlotStore.Store.CreateEvent | backend/controllers/event.controller.js:4-17 | the in-place handler leaves exactly the store and answer of Registry.CreateEvent and keeps the store consistent |
| SlotStore.Store.UpdateEventStatus | backend/controllers/event.controller.js:35-56 | the in-place handler leaves exactly the store and answer of Registry.UpdateEventStatus and keeps the store consistent |
| SlotStore.Store.DeleteEvent | backend/controllers/event.controller.js:59-72 | the in-place handler leaves exactly the store and answer of Registry.DeleteEvent and keeps the store consistent |
| SlotStore.Store.CreateSwapRequest | backend/controllers/swap.controller.js:20-61 | the in-place handler leaves exactly the store and answer of Negotiator.CreateSwapRequest and keeps the store consistent |
| SlotStore.Store.RespondToSwapRequest | backend/controllers/swap.controller.js:65-137 | the in-place handler leaves exactly the store and answer of Negotiator.RespondToSwapRequest and keeps the store consistent |
| SlotStore.ProposeScenario | backend/controllers/swap.controller.js:41-56 | after two users make their slots SWAPPABLE and one proposes a trade, the store is consistent, the PENDING request is recorded, both slots are SWAP_PENDING with their other fields kept, and the owner's delete of the offered slot is refused with InvalidState and changes nothing |

## Left out

- HTTP framing, routing, CORS and server start-up (`backend/server.js`, both
  route files) are not modelled.
- The authentication middleware that yields the current user is not part of
  this model. The caller's id is an explicit parameter of every handler.
- The `.populate(...)` joins of user names and e-mails read a User collection
  that is not part of this model. The joins of `offeredSlot` and
  `requestedSlot` put the current event documents in place of the ids, and
  null for a deleted slot; the model's requests keep the slot ids, which
  index the modelled events. Queries return the stored documents with their
  ids.
- `timestamps: true` fields are not modelled.
- `Date` values are integers, and ObjectId comparisons via `toString()` are
  plain id equality.
- New ObjectIds are parameters of the creating handlers. Their freshness is a
  precondition, as the database guarantees it.
- Registry.CreateEvent requires a non-empty title. The schema's `required`
  validation rejects an empty string, `event.save()` then throws, and the
  handler has no error answer for it; the model has no 500 outcome.
  Validation of missing or ill-typed `startTime`/`endTime` is not modelled,
  as the model's times are always present integers.
- Registry.UpdateEventStatus and Registry.DeleteEvent require the event to
  exist. The handlers do not check the lookup and throw on a missing event.
  The status check of `updateEventStatus` runs first, so that precondition
  applies only to an accepted status string.
- `accept` is a boolean. The source's strict `accept === false` sends every
  other JSON value down the accept path; that is an artefact of JavaScript
  typing.
- Each handler is one atomic step. The source's separate saves (three in a
  proposal, three in a rejection) and the accept path's database transaction
  are storage-engine mechanics. So are partial failure between saves, the
  500 answers on a failed save or an aborted transaction, and rollback.
- Concurrency between simultaneous requests is not modelled. The model is
  sequential.
- Negotiator.MySwapRequests: the contract states membership and no
  repetition. It does not state the order, because the source's queries have
  no `.sort` and the database promises none. The model reads in insertion
  order.
- Listing.SortByStart: the order among slots with equal start times is
  unspecified by the database, and the contract leaves it open.
- Error kinds: the source answers 400 for five different kinds of refusal. The model
  separates them into InvalidRequest (self-swap, unknown status string),
  InvalidState (slot not SWAPPABLE, slot SWAP_PENDING) and AlreadyActioned.
