# Room booking core, modelled in Dafny

This project models the booking logic of a small room-reservation backend.
Users book a named room (`namatempat`) for a same-day time-of-day window
(`start`/`end`, `HH:MM:SS` strings). Administrators accept or reject
bookings. A job that runs every minute is meant to release bookings whose
window has passed; as the booking schema is declared, the status it writes
is refused and nothing is released (see Findings). The database is replaced by an in-memory store: a sequence of rooms
(unique name, cached status) and a sequence of bookings (room name, times,
status, `expiredAt`). A booking's id is its position in that sequence;
bookings are never deleted.

Modules, one per component:

- `TimeFormat` (`time_format.dfy`) is the schema's `HH:MM:SS` validator. It also gives the
  seconds-since-midnight reading and the zero-padded rendering of a time,
  and the MongoDB (BSON) string order of the `$lt`/`$gt` query (`LexLess`), which compares code points.
- `Schema` (`schema.dfy`) holds the room and booking records, the status vocabulary, the
  two status enums and their defaults, and what a booking save validates.
- `Conflict` (`conflict.dfy`) holds the admission query's overlap test and the
  "active bookings of a room never overlap" invariant.
- `Admission` (`admission.dfy`): `/book-room` as a function `Admit` from the store's
  contents to new contents or an error.
- `Edit` (`edit.dfy`): `/edit-booking/:id` as a function on the booking sequence.
- `Sweep` (`sweep.dfy`): one tick of the expiry job as a function on the booking sequence.
- `Listing` (`listing.dfy`): `/list-rooms` as a projection of rooms and bookings.
- `Seeding` (`seeding.dfy`): `/add-room` as a function on the room sequence.
- `BookingStore` (`store.dfy`): class `Store`, whose `rooms` and `bookings` fields the
  handlers update in place. Each method is proved against the function above
  that specifies it. The sweep and `/add-room` are loops, as in the source.
- `Traces` (`traces.dfy`): any interleaving of booking requests and sweep ticks.
- `Findings` (`findings.dfy`): the sweep's write against the booking enum (see Findings).

The model follows the code, also where it departs from the system's intended
design, with one exception: the sweep's write. `Sweep`, `Listing` and
`BookingStore` use the sweep as intended, with the released status stored;
`Findings` models the save as declared, which stores nothing. The departures
the model does follow:

- There is no operational-hours check.
- An administrator's decision is not limited to `Pending` bookings. Any
  existing booking can be set to `Accepted` or `Rejected`, and an accepted
  booking is not re-checked for conflicts.
- The sweep never moves `Rejected` bookings to `Available`. It saves them unchanged.
- The sweep does not update any room's cached status.
- The listing ignores `expiredAt` and the cached room status. It reports the
  status of some active booking of the room; the query has no sort order, so
  which one is not fixed.
- `start < end` is not checked, so an inverted window is admitted.
- The conflict check and the insert are separate steps. The model runs
  requests one at a time, so the race between them is not represented.

## Model

| member | source | states |
|---|---|---|
| `TimeFormat.IsTimeFormat` | model/room.js:3-5 | the validator's pattern: eight characters `HH:MM:SS`, hours `00`-`23` (a `0`/`1` then any digit, or `2` then `0`-`3`), minutes and seconds `00`-`59`, anchored at both ends; its meaning is stated by `ValidatorAcceptsExactlyTimesOfDay` |
| `TimeFormat.ValidatorAcceptsExactlyTimesOfDay` | model/room.js:3-5 | the validator accepts a string iff it is the zero-padded `HH:MM:SS` rendering of some second of the day (hours 00-23, minutes and seconds 00-59, nothing before or after) |
| `TimeFormat.FormatTimeRoundTrip` | model/room.js:4 | every rendered time of day passes the validator, and reading it back gives the same second |
| `TimeFormat.SecondsRoundTrip` | model/room.js:4 | every accepted string is the rendering of the time it denotes |
| `TimeFormat.Seconds` | model/room.js:4 | an accepted string denotes a second before 86400 |
| `TimeFormat.ValidatorExamples` | model/room.js:4 | the validator rejects `24:00:00`, `12:60:00`, `12:00:60`, `9:00:00`, `12:00:00x` and the empty string, and accepts `00:00:00` and `23:59:59` |
| `TimeFormat.LexOrderIsTimeOrder` | routes.js:201-209 | for two accepted strings, the string order used by the `$lt`/`$gt` query is the order of the times they denote |
| `Schema.EnumMembership` | model/room.js:29-33 | every status the handlers write is in the room enum; the booking enum holds all of them except `Available`, which it spells `Avaliable` |
| `Schema.DefaultsAreEnumMembers` | model/room.js:32 | a new booking defaults to `Pending` and a new room to `Available`, both enum members |
| `Conflict.Blocks` | routes.js:194-212 | the query's filter for one stored booking: same room name, status `Pending` or `Accepted`, and `start < request.end` and `end > request.start` as strings; its consequences are stated by `HasConflict`, `WhatNeverBlocks` and `OverlapMeansSharedSecond` |
| `Conflict.HasConflict` | routes.js:194-212 | the admission query finds a booking iff some booking of the same room, `Pending` or `Accepted`, has `start < request.end` and `end > request.start` |
| `Conflict.WhatNeverBlocks` | routes.js:194-212 | bookings of other rooms, `Rejected` or `Available` bookings, and windows that only touch the request never block it |
| `Conflict.OverlapSymmetricAndHalfOpen` | routes.js:201-209 | the overlap test is symmetric and treats windows as half-open: touching endpoints do not overlap |
| `Conflict.OverlapMeansSharedSecond` | routes.js:201-209 | for accepted, non-empty windows the string test holds iff some second lies in both windows |
| `Admission.FindRoom` | routes.js:188-192 | the room lookup returns the position of a room with the requested name, or nothing iff no room has that name |
| `Admission.NewBooking` | routes.js:185-186 | the booking the handler builds is active with the default status `Pending`, expires after its window's end and within a day and a minute of the day's start, and passes the schema's validation iff the room name and user name are non-empty and the start time is well formed; the exact expiry and the copied fields are stated by `Admission.Admit` |
| `Schema.ValidBooking` | model/room.js:8-21 | what a booking save validates: a non-empty room name and user name, and a start and an end that the time validator accepts; its consequences are stated by `Admission.Admit` and `Admission.NewBooking` |
| `Admission.Admit` | routes.js:154-244 | a missing room name fails first; missing time fields fail next; an unknown room fails before any conflict check; a conflict is reported iff the room exists and a blocking booking exists; the request is admitted iff the name and both times are present, the room exists, no booking blocks it and the schema accepts the booking, and it fails validation iff only the last of these fails; on success exactly one valid `Pending` booking is appended with the requested fields and `expiredAt = end + 1 minute`, and only the named room's status becomes `Pending` |
| `Admission.AdmitMarksOnlyThatRoom` | routes.js:188-233 | with unique room names, an admission sets the named room to `Pending` and leaves every other room as it was |
| `Admission.AdmitKeepsRecordsValid` | routes.js:220-233 | an admission keeps room names unique and every booking valid and naming an existing room |
| `Admission.AdmitPreservesNoActiveOverlap` | routes.js:194-230 | admission keeps the active bookings of each room pairwise non-overlapping |
| `Admission.AdmissionScenario` | routes.js:185-230 | on one room: 09:00-10:00 is admitted as `Pending` expiring at 10:01, 09:30-10:30 is then refused, and 10:00-11:00 (touching) is admitted |
| `Edit.ParseDecision` | routes.js:322-328 | only `"Accepted"` and `"Rejected"` are accepted as decisions, each read as the status stored under that name |
| `Edit.EditStatus` | routes.js:314-358 | an invalid status fails before the lookup; an unknown id fails with not-found; otherwise only that booking's status is overwritten and every other booking is unchanged |
| `Edit.EditHasNoStatusGuard` | routes.js:331-339 | every existing booking can be decided, whatever its current status |
| `Edit.EditCanBreakNoActiveOverlap` | routes.js:331-339 | accepting a rejected booking can leave two overlapping active bookings on one room |
| `Sweep.SweepOne` | routes.js:412-419 | a booking becomes `Available` iff it is `Pending` or `Accepted` with `expiredAt <= now`; every other field and every other booking keeps its value |
| `Sweep.SweepAll` | routes.js:401-428 | a tick keeps the number of bookings and changes each one exactly as `SweepOne` says, so `Rejected` bookings stay `Rejected` |
| `Sweep.Selected` | routes.js:404-410 | the tick's query: a `Pending` or `Accepted` booking with `expiredAt <= now`, or any `Rejected` booking; `SweepOne` states what the tick does with it |
| `Sweep.CountSelected` | routes.js:421-424 | the logged count of bookings the query selected (`Pending`/`Accepted` with `expiredAt <= now`, or `Rejected`) is at most the number of bookings |
| `Sweep.CountSelectedZeroOrAll` | routes.js:404-424 | the logged count is zero iff the query selects no booking, and equals the number of bookings iff it selects all of them |
| `Sweep.CountSelectedSplits` | routes.js:404-424 | the reported count equals the expired `Pending`/`Accepted` bookings plus the `Rejected` ones |
| `Sweep.SweepIdempotent` | routes.js:401-428 | a second tick at the same `now` changes nothing |
| `Sweep.SweepClearsExpired` | routes.js:404-419 | after the intended tick (released status stored, see Findings) no active booking is past its expiry, and rejected bookings are still rejected |
| `Sweep.SweepPreservesNoActiveOverlap` | routes.js:404-419 | a tick keeps the active bookings of each room pairwise non-overlapping |
| `Listing.ActiveStatusOf` | routes.js:367-373 | the per-room query finds nothing iff the room has no `Pending`/`Accepted` booking, and otherwise returns the status of one such booking |
| `Listing.RoomStatuses` | routes.js:362-397 | one entry per room in room order; an entry is `Available` iff no `Pending`/`Accepted` booking names the room, otherwise it is `Pending` or `Accepted`, taken from such a booking |
| `Listing.ListingIgnoresCachedStatus` | routes.js:364-386 | the listing depends on room names only, never on the rooms' cached status |
| `Listing.AdmittedRoomIsListedBusy` | routes.js:220-233 | right after a successful booking the room is listed as `Pending` or `Accepted` |
| `Listing.ListingAfterSweep` | routes.js:366-419 | after the intended tick at `now` (released status stored, see Findings), a room is listed `Available` iff none of its active bookings expires after `now` |
| `Seeding.AddIfAbsent` | routes.js:136-141 | after one insertion step the named room exists |
| `Seeding.AddIfAbsentStep` | routes.js:136-141 | one insertion step adds exactly that name and keeps room names unique |
| `Seeding.SeedFrom` | routes.js:135-143 | the loop over the seed names, one `AddIfAbsent` per name in order; what it guarantees is stated by `SeedFromProperties`, `SeedFromPresent` and `SeedFromSnoc` |
| `Seeding.Seed` | routes.js:122-143 | `/add-room` keeps the existing rooms as a prefix, leaves every seed name present, and keeps unique room names unique |
| `Seeding.SeedNamesDistinct` | routes.js:123-132 | the eight seed names are pairwise distinct |
| `Seeding.SeedFromProperties` | routes.js:135-143 | seeding keeps the existing rooms as a prefix, appends only seed-named rooms with status `Available`, ends with every name present, and keeps names unique |
| `Seeding.SeedFromSnoc` | routes.js:135-143 | seeding one more name is one more insertion step after seeding the names before it, the order the loop runs in |
| `Seeding.SeedFromPresent` | routes.js:137-142 | when every name is present, seeding adds nothing |
| `Seeding.SeedEnsuresEachNameOnce` | routes.js:122-151 | after `/add-room` every seed name is on exactly one room, the earlier rooms are untouched, and only seed rooms with the default status were added |
| `Seeding.SeedIdempotent` | routes.js:122-151 | running `/add-room` a second time adds nothing |
| `BookingStore.Store.AddRoomIfAbsent` | routes.js:136-141 | inserts the room iff no room has its name, reports which happened, and keeps the store valid |
| `BookingStore.Store.AddRooms` | routes.js:122-151 | the rooms become the seeding of the old rooms, and the i-th result says whether the i-th seed name was absent before |
| `BookingStore.Store.BookRoom` | routes.js:154-244 | the store becomes what `Admit` gives, or is unchanged on every error; validity and the no-overlap invariant are kept; on success exactly the named room is marked `Pending` and every other room is unchanged |
| `BookingStore.Store.EditBooking` | routes.js:314-358 | the bookings become what `EditStatus` gives and the updated booking is returned, or nothing changes on an error; rooms are untouched |
| `BookingStore.Store.SweepTick` | routes.js:401-428 | the bookings become `SweepAll` of the old ones (the intended tick, see Findings), rooms are untouched, the returned count is the number of selected bookings, and the no-overlap invariant is kept |
| `Traces.RunPreservesNoActiveOverlap` | routes.js:194-230 | from a store without overlapping active bookings on a room, any sequence of booking requests and sweep ticks keeps it so |
| `Traces.RunKeepsBookings` | routes.js:220-230 | bookings are only appended, and an existing booking changes at most its status |
| `Findings.PersistedSweep` | routes.js:412-419 | under a validated save, each booking ends either as stored or as the sweep meant it, and a booking that has not expired is never changed |
| `Findings.SweepPersistsNothingAsDeclared` | routes.js:414-417 | with saves validated against the booking enum as declared, a tick leaves every booking as it was |
| `Findings.ExpiredPendingStaysPending` | model/room.js:31 | an expired `Pending` booking that the sweep means to make `Available` is still `Pending` after the validated save |
| `Findings.SweepPersistsWithCorrectedEnum` | model/room.js:29-33 | with the enum spelled `Available`, every status the handlers write is accepted and a tick stores exactly the intended sweep |

## Left out

- Registration, login, password hashing and token signing (routes.js:18-120) are foreign library calls. They are not modelled.
- The token and administrator checks that guard `/book-room` and `/edit-booking/:id` are not modelled. `EditBooking` assumes an administrator as its caller, and the user id comes in as a parameter.
- `/my-bookings`, `/confirm-booking` and `/all-confirm-booking` are plain read queries. They are not modelled.
- Date and timezone handling is not modelled: the Jakarta clock, the date string, the `setHours` arithmetic and the same-day check (routes.js:179-183). The start of the current day is a parameter (`dayStart`, in seconds). `expiredAt` is that day start plus the end time plus 60 seconds. The same-day check is also where the handler refuses a malformed `start`, before the room lookup: a string such as `abc`, `9:00` or `12:00:00x` yields an invalid date, and `25:00:00` rolls over to the next day, so the handler answers with the same-day error, while `Admit` answers `RoomNotFound`, `RoomUnavailable` or `ValidationFailed`.
- Time-field errors are simplified. An absent `jam_peminjaman` or absent `start`/`end` is one `MalformedTimes` error. A value that is not a string is not represented.
- A `namatempat` that is not a string is not represented. The missing-name check is the empty string.
- The scheduler, the wall clock and `Promise.all` concurrency are not modelled. The sweep, the listing and `/add-room` run sequentially, and `now` is a parameter. Concurrent `/add-room` inserts would land in some interleaving; the model inserts in seed order.
- The race between the conflict check and the insert in `/book-room` needs concurrent requests. Requests here are applied one at a time.
- Persistence failures (the `catch` blocks), HTTP status codes and logging are not modelled. Errors are an enum per handler.
- Mongo ObjectIds are not modelled. A booking id is its position, and a malformed id is not represented.
- `Sweep.SweepAll`: the model stores the intended `Available` status. Under the booking enum as declared, the save is refused; see Findings.
- `BookingStore.Store.SweepTick`: the in-place loop stores the intended `Available` status. Under the booking enum as declared, each such save is refused; see Findings.
- `Sweep.SweepClearsExpired`: holds for the intended sweep only. As declared, expired bookings stay `Pending` or `Accepted` (`Findings.SweepPersistsNothingAsDeclared`).
- `Listing.ListingAfterSweep`: holds for the intended sweep only. As declared, a room whose bookings have all expired is still listed busy.
- The booking's `room` reference is represented by the room name, which is unique.

## Findings

| source | as written | input that shows it | evidently intended | confidence | as-written member | corrected member |
|---|---|---|---|---|---|---|
| model/room.js:31 with routes.js:414-417 | the booking enum spells the released status `'Avaliable'`, while the sweep sets `"Available"` and calls `save()`, which validates the enum, so every such save is refused | a `Pending` booking with `expiredAt` at or before `now`: after the tick it is still `Pending` | the enum spells `Available`, so expired bookings are stored as `Available` | high; not executed | `Findings.SweepPersistsNothingAsDeclared` | `Findings.SweepPersistsWithCorrectedEnum` |
