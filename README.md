# Events manager, modelled in Dafny

This project models the in-memory `EventManager` of the events-manager repository
(`src/eventManager.ts`). The manager owns a map from event id to event. It offers
seven operations, and each reports a three-valued status code (`OK`, `NOT FOUND`,
`FAIL`) instead of throwing:

- `addEvent`, `updateEvent` and `deleteEvent` change the map.
- `getEvent` and `getEvents` read it.
- `addParticipant` and `removeParticipant` change the participant list of one stored event.

The project has four files:

- `event.dfy` (module `Events`): the `StatusCode`, `Participant` and `Event` records.
  A participant is its `email`, the only field the manager reads, plus an opaque
  `profile`. Start and end times are opaque integers.
- `participants.dfy` (module `Participants`): the participant list.
  - Two linear scans as loop methods: `SomeHasEmail` (the `some` test in
    `addParticipant`) and `FindEmailIndex` (the `findIndex` in `removeParticipant`).
  - The ghost definitions that specify them: `HasEmail` and `FirstEmailIndex`.
  - The one-element splice `RemoveAt`.
  - The per-event invariant `DistinctEmails` and the lemmas about it.
- `store.dfy` (module `EventStore`): each operation as a ghost function from the old map
  to an `Outcome` (status plus new map), or to a `Lookup` for `getEvent`. It also
  holds the store invariants and the lemmas relating the operations: round trips,
  repeated calls, preserved invariants, and listings that agree up to order.
- `manager.dfy` (module `Manager`): class `EventManager`.
  - Its field `var events: map<string, Event>` is updated in place.
  - Each state-changing method is proved to leave exactly the status and map
    that the matching `EventStore` function computes from `old(events)`.
  - The two queries change nothing. `GetEvent` returns exactly what
    `EventStore.GetEvent` computes from the current map. `GetEvents` returns a
    list satisfying the predicate `EventStore.ListsStore`: every stored event
    once, one per key.
  - The object invariant `Valid()` says every event sits under its own id.
  - `Walkthrough` is a client. It runs one event through add, a duplicate
    participant add, removal and deletion, and proves every status from the
    contracts alone.

Per-event email uniqueness is not part of `Valid()`. `addEvent` and `updateEvent`
accept any participant list, so they keep it only when the incoming list has no
repeated email. `EventStore.EventOperationsKeepEmailsDistinct` states exactly that,
so no method needs a precondition the program does not impose.

`updateEvent` stores `{ ...event, ...updatedEvent }`. An `Event` value carries every
field, so every field comes from the update, and the model stores the update
itself.

## Model

| member | source | states |
|---|---|---|
| `Events.TextsDistinct` | src/eventManager.ts:4-8 | The three status codes carry pairwise different strings (`OK`, `NOT FOUND`, `FAIL`), so a caller comparing strings can tell them apart. |
| `EventStore.AddEvent` | src/eventManager.ts:20-25 | A known id gives `Fail` with the store unchanged. Otherwise `Ok`: the id is added to the keys, it maps to the new event, and every other key is untouched. There is no overwrite. Ids stay matched to keys. |
| `EventStore.UpdateEvent` | src/eventManager.ts:32-38 | An unknown id gives `NotFound` with the store unchanged and no key inserted. A known id gives `Ok`: the key set is the same, the stored event is replaced by the update, and other keys are untouched. |
| `EventStore.DeleteEvent` | src/eventManager.ts:45-50 | An absent id gives `NotFound` with the store unchanged. A present id gives `Ok`. The id is no longer a key and all other entries are untouched. |
| `EventStore.GetEvent` | src/eventManager.ts:58-64 | The status is `Ok` exactly when the id is a key, and then the event is the stored one. Otherwise the result is `NotFound` with no event. |
| `EventStore.AddParticipant` | src/eventManager.ts:83-94 | A missing event gives `NotFound`. A participant whose email is already in the list gives `Fail` with nothing changed. Otherwise `Ok`: the list becomes the old list plus the participant, so its length grows by one. No other event or field changes. |
| `EventStore.RemoveParticipant` | src/eventManager.ts:104-117 | A missing event or an unmatched email gives `NotFound` with nothing changed. Otherwise `Ok`: exactly the first email match is spliced out, so the length drops by one. No other event or field changes. |
| `Manager.EventManager.constructor` | src/eventManager.ts:11 | A new manager holds an empty map and satisfies its invariant. |
| `Manager.EventManager.AddEvent` | src/eventManager.ts:20-25 | In-place insert. The new status and map are exactly `EventStore.AddEvent` of the old map. The ids-match-keys invariant is kept. |
| `Manager.EventManager.UpdateEvent` | src/eventManager.ts:32-38 | In-place replace. The new status and map are exactly `EventStore.UpdateEvent` of the old map. The invariant is kept. |
| `Manager.EventManager.DeleteEvent` | src/eventManager.ts:45-50 | In-place delete. The new status and map are exactly `EventStore.DeleteEvent` of the old map. The invariant is kept. |
| `Manager.EventManager.GetEvent` | src/eventManager.ts:58-64 | Read-only lookup. The status is `Ok` exactly when the id is stored, and the result is `EventStore.GetEvent` of the current map. |
| `Manager.EventManager.GetEvents` | src/eventManager.ts:70-72 | Read-only listing. The result holds exactly the stored events, one per key, so its length equals the number of keys and no id repeats. |
| `Manager.EventManager.AddParticipant` | src/eventManager.ts:83-94 | Runs the duplicate-email scan, then appends in place. The new status and map are exactly `EventStore.AddParticipant` of the old map. |
| `Manager.EventManager.RemoveParticipant` | src/eventManager.ts:104-117 | Runs the `findIndex` scan and the -1 check, then splices in place. The new status and map are exactly `EventStore.RemoveParticipant` of the old map. |
| `Participants.SomeHasEmail` | src/eventManager.ts:87 | The loop returns true exactly when some participant in the list has the given email. |
| `Participants.FindEmailIndex` | src/eventManager.ts:108-110 | The loop returns -1 exactly when no participant has the email. Otherwise it returns an index holding that email with no earlier match, and that index equals `FirstEmailIndex`. |
| `Participants.FirstEmailIndex` | src/eventManager.ts:108 | For a list that contains the email, the result is an in-range index that holds the email, and no earlier index does. |
| `Participants.RemoveAt` | src/eventManager.ts:112 | `splice(i, 1)` shortens the list by one. Entries before `i` stay in place and later ones shift down by one. The old list's multiset is the new one's plus the removed entry. |
| `Participants.FirstMatchIsFirstEmailIndex` | src/eventManager.ts:108 | Any matching index with no earlier match is the first match, so `findIndex`'s answer is unique. |
| `Participants.AppendKeepsDistinct` | src/eventManager.ts:87-89 | Appending a participant whose email is absent keeps the list's emails pairwise distinct. |
| `Participants.RemoveAtKeepsDistinct` | src/eventManager.ts:112 | Removing one entry keeps pairwise-distinct emails distinct. |
| `Participants.RemoveFirstMatchDropsEmail` | src/eventManager.ts:108-112 | In a list with distinct emails, removing the first match leaves no participant with that email. |
| `Participants.AppendThenRemoveFirstMatch` | src/eventManager.ts:87-112 | Append a participant with a new email, then find and splice out that email. The first match is the appended entry, and the original list comes back. |
| `EventStore.ListsKeysStep` | src/eventManager.ts:70-72 | Copying the event under one more key extends a partial listing. It still holds one event per visited key, with no repeated id. |
| `EventStore.EventOperationsKeepEmailsDistinct` | src/eventManager.ts:20-50 | `deleteEvent` keeps emails distinct within every event. `addEvent` and `updateEvent` keep this when the incoming event's own list has distinct emails. |
| `EventStore.AddParticipantKeepsEmailsDistinct` | src/eventManager.ts:83-94 | The duplicate check in `addParticipant` keeps emails distinct within every event. |
| `EventStore.RemoveParticipantKeepsEmailsDistinct` | src/eventManager.ts:104-117 | `removeParticipant` keeps emails distinct within every event. |
| `EventStore.AddThenGet` | src/eventManager.ts:20-64 | Adding an event under a fresh id succeeds. `getEvent` then returns `Ok` with that very event, field for field. |
| `EventStore.AddTwiceKeepsFirst` | src/eventManager.ts:20-25 | Adding two events with the same id gives `Ok` then `Fail`. The store keeps the first event's data. |
| `EventStore.AddThenDelete` | src/eventManager.ts:20-50 | Deleting a freshly added event returns `Ok` and gives back exactly the store it was added to. |
| `EventStore.DeleteThenGet` | src/eventManager.ts:45-64 | After `deleteEvent(id)`, `getEvent(id)` is `NotFound` with no event. |
| `EventStore.UpdateThenGet` | src/eventManager.ts:32-64 | After a successful update, `getEvent` returns the update itself. |
| `EventStore.AddParticipantThenRemove` | src/eventManager.ts:83-117 | A successful `addParticipant` followed by `removeParticipant` of the same participant returns `Ok` and restores the store exactly. |
| `EventStore.AddParticipantTwiceFails` | src/eventManager.ts:83-94 | After a successful add, adding anyone with the same email to that event gives `Fail` and changes nothing. |
| `EventStore.RemoveParticipantTwiceNotFound` | src/eventManager.ts:104-117 | With distinct emails, a successful removal leaves the email absent, so removing it again gives `NotFound` and changes nothing. |
| `EventStore.DistinctIdsOccurOnce` | src/eventManager.ts:70-72 | In a list of events with distinct ids, each event occurs at most once. |
| `EventStore.ListingsArePermutations` | src/eventManager.ts:70-72 | Any two complete listings of one store have the same multiset of events. They can differ only in order. |

## Left out

- Manager.EventManager.GetEvents: the result's order is not modelled. A JS `Map` yields values in insertion order. The model lists the stored events one per key in an unspecified order, and `ListingsArePermutations` shows that all such listings agree up to order.
- Reference semantics and aliasing are not modelled. `addEvent` stores the caller's object itself, and `push`/`splice` mutate the stored participant array, which the caller and earlier `getEvent` results share. The model keeps events as immutable values inside the map, so a change made by a caller after insertion has no counterpart.
- `startTime`/`endTime` are opaque integers, not dates. The manager never reads or compares them, and it enforces no start-before-end rule.
- Participant profile fields other than `email` are kept as an opaque map. The participant module is not part of this model, and only `email` is ever read.
- The module-level singleton and `Object.freeze` are not modelled. They bind a variable and have no behaviour of their own.
- Values the type system would not admit are not modelled. TypeScript does not check records at run time, so an update could lack fields or carry extra ones. The model's `Event` always has exactly the seven fields, so the spread in `updateEvent` is a full replacement.
