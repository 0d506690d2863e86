# Event registration engine — a Dafny model

This project models the registration engine of a small Express + SQLite service.
Organizers publish events that have a `max_capacity`. Attendees register for an
event with a name, an email and an optional phone number. The engine has five parts:

- **users by email**: `getOrCreateUser` resolves a user by exact email and
  inserts one when none exists.
- **register** (`POST /api/events/:id/register`) checks four things in this order:
  the required fields, that the event exists, the event's confirmed count against
  its capacity, and the requester's existing row for the event. It then inserts a
  `confirmed` row, reactivates a `cancelled` row in place, or refuses.
- **cancel** (`DELETE /api/registrations/:id`) sets a row's status to `cancelled`.
- **create event** (`POST /api/events`) checks the required fields and inserts.
- **registered_count / available_spots** are derived for an event from its
  `confirmed` rows.

The database is an immutable `Store` of three tables, `events`, `users` and
`registrations`. Each table is a sequence. Rows are never deleted and ids are
AUTOINCREMENT, so the row with id `k` is at index `k - 1`, and the next insert
gets id `|table| + 1`. Each handler is a pure function. It returns a `Step`: a
`Result` (`Ok(...)`, or `Err` of `ValidationError`, `NotFound`, `Full` or
`AlreadyRegistered`) together with the store after the step. HTTP status codes
are mapped to these error kinds.

The single source file is split into one module per table plus the handlers:

- `Schema` (schema.dfy): rows, store, error kinds, JavaScript truthiness of
  required fields (`Present`), and `x || null` (`OrNull`).
- `Ledger` (ledger.dfy): the registrations table. Holds the confirmed count, the
  lookup of the row for a (user, event) pair, and the `UNIQUE(user_id, event_id)`
  constraint.
- `Users` (users.dfy): the users table, the `UNIQUE` email constraint and
  `getOrCreateUser`.
- `Engine` (engine.dfy): the store invariant `Valid`, plus create event, the event
  summary, register and cancel, with one lemma per property.
- `Traces` (traces.dfy): requests handled one after another. Covers
  invariant preservation over any history, and the last-seat and
  cancel-then-register scenarios.

`Valid` combines four facts: emails are unique, (user, event) pairs are unique,
every registration names an existing user and event, and no event has more
confirmed registrations than `Seats(max_capacity)`. Every writing handler
preserves `Valid`, and the empty store satisfies it. Therefore no history of
sequential requests overbooks an event.

Points where the code's behaviour is easy to misread, and how the model treats them:

- Register is not atomic. The code reads the count and writes later, with no
  transaction (server.js:173-190, 208, 221). The model treats each request as
  one atomic step. It proves no-overbooking only for requests handled one after
  another. It does not claim that the service is free of races.
- A reactivation answers with the row as the code read it *before* the update,
  so its status is still `cancelled` (server.js:214). `Reactivated` carries that
  row, and the lemmas state that its status is `Cancelled`.
- A negative `max_capacity` passes the falsy check, which rejects only a missing
  value or 0 (server.js:143). The invariant therefore bounds the count by
  `Seats(max_capacity)`, which is 0 for a negative capacity. Register admits no
  one to such an event, and its available_spots is negative.
- Two concurrent inserts of the same new email end in a 500 (server.js:87-89).
  With sequential steps this case cannot arise.
- Capacity is checked before the existing row is looked up. So a user who is
  already confirmed for a full event gets `Full`, not `AlreadyRegistered`
  (`Register`'s third ensures).

## Model

| member | source | states |
|---|---|---|
| `Ledger.ConfirmedCount` | server.js:173-179 | the count of an event's confirmed rows is at most the number of rows, and it is zero exactly when no row is a confirmed row of that event |
| `Ledger.ConfirmedCountIsSeatRows` | server.js:173-179 | the registered_count of an event is the number of registration rows for it whose status is confirmed; cancelled rows and rows of other events do not count |
| `Ledger.CountUpdate` | server.js:208-209 | rewriting one row changes an event's count by the seat the new row holds minus the seat the old row held |
| `Ledger.FindRegistration` | server.js:199-200 | the lookup finds a row for exactly the (user, event) pair, and answers none only when no row has that pair |
| `Ledger.UniquePairs` | server.js:62 | `UNIQUE(user_id, event_id)`: no two registration rows have the same (user, event) pair |
| `Ledger.FindRegistrationUnique` | server.js:62 | under `UNIQUE(user_id, event_id)` the row found for a pair is the only row with that pair |
| `Schema.Present` | server.js:168 | a required text field counts as given only when it is present and not the empty string, as JavaScript's `!name` / `!email` test |
| `Schema.OrNull` | server.js:86 | `phone \|\| null`: a missing or empty value is stored as NULL, any other value is stored as given |
| `Users.UniqueEmails` | server.js:42 | `email TEXT UNIQUE`: no two users have the same email |
| `Users.FindUserByEmail` | server.js:75 | the lookup finds a user whose email equals the given one exactly, and answers none only when no user has that email |
| `Users.GetOrCreateUser` | server.js:74-96 | the returned user has the requested email and is stored under the returned id; a known email leaves the store untouched; an unknown email appends exactly one user with the given name and `phone \|\| null`, under the next id; events and registrations are never touched |
| `Users.GetOrCreateFindsExisting` | server.js:75-82 | with unique emails, an existing email resolves to that very user, whatever name and phone the request supplied |
| `Users.GetOrCreatePreservesUniqueEmails` | server.js:84-94 | creating a user on an unknown email keeps emails unique, and the existing users are kept unchanged |
| `Users.GetOrCreateIdempotent` | server.js:74-96 | resolving the same email twice yields the same user id and row, and the second call writes nothing |
| `Engine.Valid` | server.js:38-69 | the store invariant: emails unique, (user, event) pairs unique, every registration names an existing user and event, and no event has more confirmed rows than its seats |
| `Engine.EmptyStoreValid` | server.js:38-69 | empty tables satisfy the uniqueness, reference and capacity invariant |
| `Engine.PresentNumber` | server.js:143 | `!max_capacity`: the capacity counts as given only when it is present and not 0 |
| `Engine.CreateEvent` | server.js:140-161 | missing title, date, location or capacity (missing, empty or 0) is a validation error with no write; otherwise exactly one event is appended, with the given fields, `description \|\| null`, and the next id |
| `Engine.CreateEventPreservesValid` | server.js:147-148 | a new event starts with no confirmed registrations, so the invariant is kept |
| `Engine.Summarize` | server.js:116-137 | an unknown event id is NotFound; otherwise registered_count is the number of confirmed rows of the event and registered_count + available_spots = max_capacity |
| `Engine.AvailableSpotsNonNegative` | server.js:121-122 | in a valid store an event whose capacity is not negative never shows negative available spots |
| `Engine.Register` | server.js:164-244 | validation error exactly when name or email is missing or empty; NotFound exactly when the fields are present and the event is unknown; Full exactly when the event exists and its confirmed count is at least max_capacity; those three write nothing; no error touches the registrations; events are never written and at most one user is added |
| `Engine.RegisterExistingRow` | server.js:205-218 | a requester with a confirmed row for the event gets AlreadyRegistered and the store is unchanged; with a cancelled row, only that row's status becomes confirmed (same id, user, event, registration date, no new row, no user added) and the answer carries the row as read before the update |
| `Engine.RegisterNewRow` | server.js:219-239 | a requester without a row for the event gets exactly one appended confirmed row for (their user id, event) under the next id, and the answer carries the user with the request's email and the event as read with its pre-registration count; a known email leaves the users table unchanged, and an unknown email appends exactly one user with the request's name, email and `phone \|\| null` |
| `Engine.RegisterAlreadyRegisteredRow` | server.js:199-217 | AlreadyRegistered is answered only when the user holding the request's email has a confirmed row for the event |
| `Engine.RegisterTakesOneSeat` | server.js:205-222 | a successful register raises its event's confirmed count by exactly one and leaves every other event's count unchanged |
| `Engine.RegisterErrorWritesNothing` | server.js:168-218 | in a valid store every refused register leaves the whole store unchanged; no user is created |
| `Engine.RegisterPreservesValid` | server.js:188-222 | register preserves the invariant, including confirmed count ≤ capacity |
| `Engine.RegisterKeepsUniqueEmails` | server.js:193-196 | the user step of register keeps emails unique |
| `Engine.RegisterKeepsPairs` | server.js:199-222 | register keeps (user_id, event_id) unique: it either rewrites the pair's existing row or appends a row for a pair that had none |
| `Engine.RegisterKeepsRefs` | server.js:221-222 | a row register writes names an existing user and an existing event |
| `Engine.RegisterKeepsCapacity` | server.js:188-190 | the capacity check before any write keeps every event within its seats |
| `Engine.SetStatusKeepsPairs` | server.js:208-209 | changing only a row's status keeps (user_id, event_id) unique |
| `Engine.AppendFreshPairKeepsPairs` | server.js:221-222 | inserting a row for a pair with no row keeps (user_id, event_id) unique |
| `Engine.Cancel` | server.js:271-287 | an existing id succeeds, and only that row changes: its status becomes cancelled and its id, user, event and registration date are kept; an unknown id is NotFound and writes nothing; events and users are never touched |
| `Engine.CancelCancelledIsNoOp` | server.js:274-285 | cancelling an already-cancelled row succeeds and leaves the store exactly as it was |
| `Engine.CancelIdempotent` | server.js:274-285 | cancelling the same id twice has the same answer and store as cancelling it once |
| `Engine.CancelFreesSeat` | server.js:274-275 | cancelling frees the row's seat if it held one; every other event's count is unchanged |
| `Engine.CancelPreservesValid` | server.js:274-275 | cancel preserves the invariant |
| `Traces.RunPreservesValid` | server.js:140-287 | any sequence of create-event, register and cancel requests handled one at a time preserves the invariant |
| `Traces.NoOverbooking` | server.js:188-190 | after any sequential history from empty tables, every event's confirmed count is within its seats, emails are unique and (user, event) pairs are unique |
| `Traces.RegisterOkRow` | server.js:205-239 | after a successful register, the answered id names a confirmed row for the event, owned by the user holding the request's email |
| `Traces.LastSeatGoesToFirst` | server.js:173-190 | when one seat remains and the first requester holds no confirmed row for the event, the first of two requests handled in order succeeds (new row or reactivation) and the second gets Full with nothing written, leaving the event exactly at capacity |
| `Traces.CancelThenRegisterRestores` | server.js:206-214 | cancelling a confirmed row and then registering with its user's email reactivates the same row id; the answer carries the pre-update (cancelled) row and the store is back to what it was before the cancel |
| `Traces.RegisterCancelRegister` | server.js:206-214 | register, cancel, register again with the same email answers with the same registration id and ends in the store left by the first register |

## Left out

- HTTP transport: Express routing, body parsing, CORS, static files and status codes (server.js:1-12, 319-321). The error kinds stand for the 400/404 answers.
- SQLite connection, table creation and shutdown (server.js:15-71, 324-332). These are I/O. Only the schema's uniqueness and reference constraints are kept, as the invariant `Valid`.
- Database failures, the 500 answers of every handler. The model's store cannot fail.
- Concurrency. The source reads the count (server.js:173-190) and writes later (server.js:208, 221) with no transaction, so concurrent registers can overbook an event. A concurrent insert of the same new email ends in a 500 (server.js:87-89). The model covers only requests handled one at a time, each as an atomic step.
- Timestamps. `created_at` and `registration_date` are an opaque `Timestamp` passed in as `now`. One value stands for both of a register's `CURRENT_TIMESTAMP` reads, and date semantics are not modelled.
- Read-only listing endpoints: `GET /api/events` with its ORDER BY (server.js:99-113), the user's registrations (server.js:247-268) and a single registration (server.js:290-316). `Summarize` models the registered_count / available_spots derivation that `GET /api/events` computes for every event.
- JavaScript loose typing. Ids are `nat`, and the string-to-integer conversion of `req.params.id` is not modelled. Capacity is an `int`. Truthiness is modelled only as missing or empty text and missing or 0 capacity.
