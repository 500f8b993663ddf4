# Inactivity sweep of the chat-room server

This project models, in Dafny, the presence-expiry sweep of a small chat-room
backend (`filterInactiveParticipants`). Participants are documents
`{name, lastStatus}` in a `participants` collection; chat and status messages
are documents `{from, to, text, type, time}` in a `messages` collection. One
sweep:

1. computes the cutoff `now - MS_STATUS` once;
2. finds every participant whose `lastStatus` is strictly below the cutoff;
3. returns without touching anything when it found none;
4. otherwise deletes every participant matching the same filter, with the same cutoff;
5. appends one `status` message per found participant (`from` = its name,
   `to` = `"Todos"`, `text` = `"sai da sala..."`) as one batch.

`sweep.dfy` holds one module, `FilterInactiveParticipants`:

- `Participant`, `Message` and `Store` are the documents and the pair of
  collections as values. The message field `type` is called `kind`, because
  `type` is a Dafny keyword.
- `Inactive` is the `find` with the filter `lastStatus < cutoff`, and
  `Remaining` is what the `deleteMany` with that filter leaves. Both keep the
  store's order.
- `DepartureMessages` is the `map` that builds the batch for `insertMany`.
- `Swept` is the whole sweep on a `Store` value. The lemmas about it state what
  the sweep promises.
- `ChatDb` is a class whose two `seq` fields are the collections. Its method
  `Sweep` changes them in place, with the early return of the source. Its
  contract ties the new state to `Swept` and restates the main properties
  directly.
- `Interleaves` is an independent description of an order-keeping partition.
  `PartitionInterleaves` and `PartitionUnique` show that the two filters
  compute exactly that partition, and the only one that splits stale from live.

The clock (`Date.now()`), the constant `MS_STATUS` and the formatted time
string are parameters of `Sweep` (`now`, `msStatus`, `time`).

The departure message's `to` is `"Todos"` ("everyone") and its `text` is
`"sai da sala..."` ("left the room"), as the function writes them.

## Model

| member | source | states |
|---|---|---|
| FilterInactiveParticipants.Cutoff | src/filterInactiveParticipants.js:7 | the cutoff computed once per sweep, `now - MS_STATUS`; no contract of its own, the `Swept*` lemmas and ChatDb.Sweep use it |
| FilterInactiveParticipants.IsInactive | src/filterInactiveParticipants.js:9 | the filter `lastStatus < cutoff` shared by the find (:9) and the delete (:15); no contract of its own, its meaning is stated by InactiveMembership and RemainingMembership |
| FilterInactiveParticipants.Inactive | src/filterInactiveParticipants.js:8-10 | `find` returns no more documents than the collection holds, and every one it returns has `lastStatus` below the cutoff |
| FilterInactiveParticipants.Remaining | src/filterInactiveParticipants.js:14-16 | `deleteMany` leaves no more documents than there were, and none of them matches the filter |
| FilterInactiveParticipants.PartitionInterleaves | src/filterInactiveParticipants.js:8-16 | the collection is an order-keeping merge of the found list and the survivors of the delete |
| FilterInactiveParticipants.PartitionUnique | src/filterInactiveParticipants.js:8-16 | any order-keeping split into stale and live participants equals the found list and the survivors, so find and delete use the same predicate |
| FilterInactiveParticipants.InterleavesConserves | src/filterInactiveParticipants.js:8-16 | such a split loses and duplicates nothing: lengths add up and the multisets add up |
| FilterInactiveParticipants.InactiveMembership | src/filterInactiveParticipants.js:8-10 | a participant is found if and only if it is in the collection and its `lastStatus` is below the cutoff |
| FilterInactiveParticipants.RemainingMembership | src/filterInactiveParticipants.js:14-16 | a participant survives the delete if and only if it was there and its `lastStatus` is not below the cutoff |
| FilterInactiveParticipants.NoneInactiveKeepsAll | src/filterInactiveParticipants.js:12-16 | the find returns nothing if and only if the delete would leave the collection unchanged |
| FilterInactiveParticipants.AllLiveKept | src/filterInactiveParticipants.js:14-16 | when nothing is stale, the delete leaves the collection exactly as it was |
| FilterInactiveParticipants.RemainingHasNoInactive | src/filterInactiveParticipants.js:7-16 | after the delete, the same filter finds nothing |
| FilterInactiveParticipants.DepartureMessage | src/filterInactiveParticipants.js:19-25 | the departure document built for one participant; no contract of its own, DepartureMessages states its fields |
| FilterInactiveParticipants.DepartureMessages | src/filterInactiveParticipants.js:18-26 | one message per found participant, in order, with `from` its name, `to` "Todos", `text` "sai da sala...", type "status" and the given time |
| FilterInactiveParticipants.Swept | src/filterInactiveParticipants.js:7-26 | the whole sweep as one step on the two collections, with the early return at :12; no contract of its own, the `Swept*` lemmas state its properties |
| FilterInactiveParticipants.SweptState | src/filterInactiveParticipants.js:7-26 | after a sweep the participants are the survivors of the delete and the log is the old log plus the departure batch for the found list, also on the early-return path |
| FilterInactiveParticipants.SweptRemovesInactive | src/filterInactiveParticipants.js:7-16 | no participant left after a sweep has `lastStatus` below `now - msStatus` |
| FilterInactiveParticipants.SweptKeepsLive | src/filterInactiveParticipants.js:14-16 | every participant with `lastStatus` at or above the cutoff is still present, unchanged, and the survivors keep their relative order |
| FilterInactiveParticipants.SweptAppendsOnly | src/filterInactiveParticipants.js:18-26 | the old log is a prefix of the new one, and the added messages are exactly the departure batch for the found participants, in the order found |
| FilterInactiveParticipants.SweptConserves | src/filterInactiveParticipants.js:8-26 | participants before = participants after + messages appended |
| FilterInactiveParticipants.SweptNoopIffNoneInactive | src/filterInactiveParticipants.js:12 | a sweep leaves both collections exactly as they were if and only if no participant is stale |
| FilterInactiveParticipants.SweptIdempotent | src/filterInactiveParticipants.js:7-16 | a second sweep with the same `now` and `msStatus` changes nothing, whatever time string it is given |
| FilterInactiveParticipants.DepartureCount | src/filterInactiveParticipants.js:18-20 | the batch holds as many messages from a name as the found list holds participants of that name |
| FilterInactiveParticipants.InactiveNotNamed | src/filterInactiveParticipants.js:8-10 | the find returns no participant with a name nobody in the collection has |
| FilterInactiveParticipants.InactiveNamedOnce | src/filterInactiveParticipants.js:8-10 | with unique names, the find returns a given participant's name once if it is stale and never if it is live |
| FilterInactiveParticipants.RemainingUniqueNames | src/filterInactiveParticipants.js:14-16 | the delete keeps names unique |
| FilterInactiveParticipants.SweptDepartsOnce | src/filterInactiveParticipants.js:8-26 | with unique names, a sweep appends exactly one departure message from each stale participant and none from a live one, and names stay unique |
| FilterInactiveParticipants.SweptScenario | src/filterInactiveParticipants.js:7-26 | with a 10000 ms window at 15000 ms, a participant last seen at 0 is removed with one departure message and one last seen at 14000 stays |
| FilterInactiveParticipants.ChatDb.constructor | src/filterInactiveParticipants.js:5 | the database starts with the given two collections |
| FilterInactiveParticipants.ChatDb.Sweep | src/filterInactiveParticipants.js:7-26 | updates the two collections in place to the result of `Swept`: no stale participant left, live ones kept in order, the departure batch appended, the count conserved, and nothing changed when nothing is stale |

## Left out

- The document-store driver (`find`, `toArray`, `deleteMany`, `insertMany`) is modelled as operations on in-memory sequences, not as a foreign API.
- `Date.now()`, the constant `MS_STATUS` (from `constants.js`, which is not part of this model) and `dayjs().locale("pt-br").format("HH:mm:ss")` are not modelled. The clock reading, the window and the formatted time are parameters.
- DepartureMessages: promises that every message of the batch carries the one `time` parameter. The source calls `dayjs()` once per element inside `.map`, so two messages of one batch could carry different seconds if the batch straddles a second boundary.
- ChatDb.Sweep: all messages of one sweep carry the one `time` parameter. The source calls `dayjs()` once per message, so two messages of one batch could carry different seconds if the batch straddles a second boundary.
- The `try`/`catch` that logs and swallows errors is not modelled. A store failure part-way (delete done, insert failed) is not represented; the model's sweep always completes.
- Concurrency is not modelled. The race between the `find` and the `deleteMany` under a concurrent ping cannot happen in the single-threaded model, so the found list always equals the deleted set.
- The recurring timer that drives the sweep is not part of this model.
- JavaScript numbers are doubles; `lastStatus`, `now` and `msStatus` are modelled as unbounded integers, which agree with them for millisecond timestamps. Documents with a missing or non-numeric `lastStatus` are not modelled.
- Name uniqueness is not enforced by the sweep. SweptDepartsOnce takes it as a precondition, and RemainingUniqueNames shows the sweep preserves it.
- src/app.js is not modelled: its route handlers are unimplemented stubs around HTTP wiring, and its only checks (the `parseInt` limit at src/app.js:39-40 and the missing `User` header at src/app.js:55) are request validation around unimplemented handlers; the first depends on JavaScript parsing.
