# Toast-notification queue

A Dafny model of the toast-notification queue kept in the front end's shared
state module (`src/store.ts`). The queue is a process-wide ordered list of
notification records, each with an `id`, a `title`, a `subtitle`, a `caption`,
a `timeout` in milliseconds and a `type` (`error` or `success`).
`addToastNotification` stamps a newly generated id onto the record and appends
it at the end of the list. When the record's `timeout` is truthy, it also
schedules a later dismissal of that id. `dismissToastNotification` replaces the
list with the entries whose id differs from the argument.

Everything is in `store.dfy`, module `Store`:

- `ToastNotification` is a datatype with one field per record field. The
  source's `type` field is called `kind`, because `type` is a Dafny keyword.
- `ToastQueue` is a class. Its field `notifications: seq<ToastNotification>`
  is the writable list, and its methods `Add`, `Dismiss` and `Expire`
  reassign it.
- `Without(q, id)` is the pure filter that `Dismiss` applies. The lemmas
  about it state what dismissal promises.
- The id generator and the host timer are replaced by inputs and outputs.
  `Add` takes the generated id as a parameter. The ghost set `issued`
  records every id handed out so far, and `Add` requires the new id to be
  outside it, as a generator that never repeats an id guarantees. `Add`
  returns the dismissal to schedule as an `Option<Timer>`. When the host's
  timer fires it calls `Expire`, which is the deferred
  `dismissToastNotification(id)`.
- `ToastQueue.Valid` is the queue's invariant: ids are pairwise distinct
  (`UniqueIds`) and every queued id is in `issued`. Every method keeps it.
- `Op`, `Step` and `Run` describe any series of adds and dismissals as a
  function of the list, so that properties of interleavings (a timer firing
  long after a manual dismissal) can be stated over all series.
- `AliasedAdd`, `AliasedDismiss` and `View` model the add and the dismiss
  as the source writes them, over shared objects: the list holds references
  into a heap of objects, and the add writes the id into the object it is
  given. They agree with the value model as long as a caller never re-adds
  an object (`AliasedAddFreshObject`, `AliasedDismiss`), and they show what
  goes wrong when one does (see "## Findings").

A dismissal is scheduled whenever `timeout` is truthy, i.e. non-zero, so a
negative timeout also schedules one (src/store.ts:23).

## Model

| member | source | states |
|---|---|---|
| `Store.ToastQueue.constructor` | src/store.ts:17 | the queue starts as the empty list, with no id handed out yet |
| `Store.ToastQueue.Add` | src/store.ts:19-24 | the new id must never have been handed out before, and is recorded as handed out; the stored record is the argument with only its id replaced by the supplied fresh id; the new list is the old one with that record appended last, so it is one longer and every earlier entry keeps its position; a dismissal of exactly that id, with the record's timeout as delay, is returned if and only if the timeout is non-zero (negative included); unique ids are preserved; an id handed out earlier that is absent from the list stays absent |
| `Store.ToastQueue.Dismiss` | src/store.ts:26-28 | the new list is the old one filtered by id; afterwards no entry carries the id; an absent id leaves the list unchanged; no absent id comes back; unique ids are preserved |
| `Store.ToastQueue.Expire` | src/store.ts:23 | the callback of a scheduled timer is a dismissal of the timer's id and has the same effect as `Dismiss`; a timer whose id has left the list changes nothing |
| `Store.Stamp` | src/store.ts:20 | stamping changes the id to the generated one and keeps title, subtitle, caption, timeout and type as the caller gave them |
| `Store.Without` | src/store.ts:27 | the filtered list is no longer than the input and none of its entries carries the dismissed id |
| `Store.WithoutMembers` | src/store.ts:27 | a notification is in the filtered list if and only if it was in the input and its id differs from the dismissed one |
| `Store.WithoutIsSubsequence` | src/store.ts:27 | the filtered list is a subsequence of the input: survivors keep their relative order |
| `Store.WithoutMultiplicity` | src/store.ts:27 | every entry with the dismissed id is removed, not only the first, and every other entry keeps its number of copies |
| `Store.WithoutUnchangedIff` | src/store.ts:27 | dismissal leaves the list unchanged if and only if no entry carries the id |
| `Store.WithoutIdempotent` | src/store.ts:23-27 | dismissing an id twice in a row equals dismissing it once |
| `Store.Step` | src/store.ts:22-27 | one add appends exactly one entry, carrying the new id, after the unchanged old list; one dismissal leaves no entry with the id and never lengthens the list |
| `Store.StaleDismissalHarmless` | src/store.ts:19-28 | an id absent from the list stays absent through any series of adds and dismissals that never generates it again, so its timer firing at any later point leaves the list unchanged, unless a caller re-adds the same object (see `Store.AliasedLateTimerDismissesReAdded`) |
| `Store.WithoutCommutes` | src/store.ts:23-27 | two dismissals give the same list in either order, so independent timers do not interfere |
| `Store.WithoutAppend` | src/store.ts:22-27 | filtering a concatenation filters each part |
| `Store.WithoutLength` | src/store.ts:27 | the filtered list is shorter than the input by the number of entries carrying the id |
| `Store.UniqueOccurrences` | src/store.ts:20-22 | in a list with unique ids an id occurs once if present and never otherwise |
| `Store.DismissLength` | src/store.ts:27 | with unique ids, dismissing a present id removes exactly one entry and dismissing an absent one removes none |
| `Store.WithoutKeepsUnique` | src/store.ts:27 | filtering a list with unique ids yields a list with unique ids |
| `Store.AddThenDismiss` | src/store.ts:19-28 | adding a record under a fresh id and then dismissing that id restores the list as it was before the add |
| `Store.AliasedAdd` | src/store.ts:20-22 | the add as written: the object passed in gets the new id and every other object is unchanged; the list gains that same reference at the end; references stay valid |
| `Store.View` | src/store.ts:17-22 | the list as the store shows it has one entry per reference, each the current state of the referenced object |
| `Store.AliasedDismiss` | src/store.ts:26-28 | the dismiss as written keeps valid references, and the list it shows is exactly the value model's filter `Without` of the list shown before |
| `Store.AliasedDismissKeepsObjects` | src/store.ts:27 | the dismiss as written keeps a reference if and only if it was in the list and its object's id differs, and the kept references are the original ones in their original order |
| `Store.AliasedAddFreshObject` | src/store.ts:19-22 | when the object passed in is not already in the list, the add as written shows the old list with the stamped record appended, as the value model's add does |
| `Store.AliasedAddBreaksUniqueIds` | src/store.ts:19-23 | when the add as written is handed an object already at any position of the list, that entry and the appended one both show the new id, so ids are not unique, and one dismissal of that id removes at least both |
| `Store.AliasedLateTimerDismissesReAdded` | src/store.ts:19-27 | add an object under `a`, dismiss `a` by hand, re-add the same object under `b`: the first timer reads the object's id when it fires and removes the re-added notification, while in the value model the same late timer leaves the list unchanged |

## Left out

- The id generator (`uuidv4`, src/store.ts:2, 20) is a foreign library. It is replaced by an id passed in by the caller, with the precondition that it was never handed out before.
- Timer timing and delivery (`setTimeout`, src/store.ts:23) belong to the host's event loop. The model returns the dismissal to schedule and its delay, and `Expire` is the action the timer runs. Elapsed time is not modelled, so the model does not say when a timer fires. `WithoutCommutes` covers the order in which two timers fire. `StaleDismissalHarmless` covers a timer that fires after its notification is gone, with any adds and dismissals in between, unless the caller re-adds the same object (see the `Store.ToastQueue.Add` line below).
- `Store.ToastQueue.Add`: the source writes the id into the caller's own object and stores that same object, so the caller and the list share it. The model treats records as values and returns the stamped record instead. A later mutation of the caller's object, including of its `id` before the timer reads it, is not modelled. The worst case is a caller that passes an object the list already holds. Line 20 then rewrites the id of the queued object, and line 22 appends the same object again, so the list shows two entries with the same id, and the first timer to fire removes both. For that input the source does not keep ids unique, while `Add` does. A second input also goes wrong: a caller adds an object with a timeout, dismisses it by hand, and re-adds the same object. Line 20 gives the object a new id. The first timer reads `notification.id` only when it fires (line 23), so it dismisses the re-added notification early. In the model the timer holds the id it was scheduled for, so a late timer does nothing. See "## Findings".
- `timeout` is a JavaScript number. The model uses an integer, so `NaN` (which is falsy) and fractional delays are not modelled.
- The subscription mechanism of the writable store (src/store.ts:1, 16-17) is framework plumbing. The list is a plain mutable field, and observers are not modelled.
- `checkAuth` and its call at module load (src/store.ts:30-39) are an HTTP request plus a store write. They are not part of this model, and neither is the `user` store (src/store.ts:16).
- The configuration constants `apiURL` and `accountTitleTypeString` (src/store.ts:5-6) carry no logic.
- `src/apitype.ts` holds type declarations only and is not part of this model.

## Findings

| source | as written | input that shows it | evidently intended | confidence | as-written member | corrected member |
|---|---|---|---|---|---|---|
| src/store.ts:19-23 | the add writes the new id into the caller's object and appends that same object | an object already in the list with id `a`, added again and given id `b`: the list shows two entries with id `b`, and one dismissal of `b` removes both entries | every added notification is a separate entry with its own id, e.g. by storing a copy `{...notification, id}` | medium, not executed (it needs a caller that re-adds a queued object) | `Store.AliasedAddBreaksUniqueIds` | `Store.ToastQueue.Add` |
| src/store.ts:20-23 | the timer's callback reads `notification.id` when it fires, from the object the caller passed | add an object with a timeout under id `a`, dismiss `a` by hand, re-add the same object (now id `b`): when the first timer fires it dismisses `b`, so the re-added notification disappears early | a timer dismisses only the notification it was scheduled for, e.g. by capturing the id in a local before scheduling | medium, not executed (it needs a caller that re-adds one object) | `Store.AliasedLateTimerDismissesReAdded` | `Store.StaleDismissalHarmless` |
