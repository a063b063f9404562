# Task list controller: optimistic mirror of a remote task table

This project models the controller at the centre of a single-page task list
(`src/App.jsx`, the `App` component). The controller keeps a local mirror of the
public rows of a remote `tasks` table and three input drafts: title, category and
priority. It also keeps a busy flag. It changes the mirror optimistically. Each
handler applies its change at once, waits for the remote call, and then either
commits the authoritative result or rolls the change back.

The model has three modules:

- `Js` (`js.dfy`): the JavaScript built-ins the handlers rely on.
  - `undefined` is `Option.None`.
  - `String.prototype.trim` is `Trim`, with ECMAScript's set of whitespace and
    line-terminator code points.
  - `Array.prototype.filter` is `Filter` and `Array.prototype.find` is `Find`.
  - Lemmas state what these built-ins guarantee.
- `Tasks` (`tasks.dfy`): the data model, the transforms the handlers pass to
  `setTasks`, `getPriorityColor`, and the lemmas relating the transforms.
  - A `Row` holds a task's fields. `id` is `None` on a provisional record, and
    `userId` is `None` because the task is public.
  - A `Task` is a JavaScript object in the mirror: a `Row` plus an object
    identity `obj`. `obj` is what `===` and `!==` compare.
  - Copying an object with `{ ...task }` gives the copy a new identity, and so
    do rows parsed from a response.
- `TaskApp` (`app.dfy`): the class `App`.
  - Its fields are the five `useState` cells: `tasks`, `newTitle`,
    `newCategory`, `newPriority` and `loading`.
  - Three more fields model the runtime around them. `nextObj` is the identity
    the next allocated object gets. `pending` holds the handlers suspended at an
    `await`, keyed by invocation, with what their closures captured. `nextOp`
    is the next invocation key.
  - Each async handler is split at its `await`. `BeginX` runs the synchronous
    part and leaves a pending continuation. `SettleX` resumes it with the remote
    outcome, applied to the mirror as it is at that moment, the way a React
    functional update `setTasks(prev => …)` is. Because of the split, the
    interleavings that the source allows can be written down.
  - `FetchTasks`, `AddTask`, `ToggleCompleted` and `DeleteTask` run both halves
    back to back. Their contracts state each handler's net effect when nothing
    else happens while the call is outstanding.

Remote calls are not modelled. Each one is an input: `Outcome.Success(data)` or
`Outcome.Failure` for the query and the insert, and a boolean `ok` for the update
and the delete. In every handler, an `error` in the response and a thrown
exception are handled the same way, so both are `Failure`. The confirmation
dialog is a boolean input, `confirmed`. The client-side timestamp
`new Date().toISOString()` is a string input, `now`.

Where the design description and the code differ, the model follows the code:

- The description says a failed delete "restores the removed record". The code
  filters out every record with the id, but re-appends only the first one
  `tasks.find` returned. It appends it at the end of the mirror, not at its
  old position.
- A failed toggle writes the `completed` argument back. It does not write the
  value each record had before the toggle.

## Model

| member | source | states |
|---|---|---|
| `TaskApp.App.constructor` | src/App.jsx:5-9 | The first state: empty mirror, drafts `''`, `'Personal'`, `'medium'`, not loading, nothing pending. |
| `TaskApp.App.EditTitle` | src/App.jsx:205 | The title input's change handler sets the title draft and nothing else. |
| `TaskApp.App.SelectCategory` | src/App.jsx:220 | The category selector's change handler sets the category draft and nothing else. |
| `TaskApp.App.SelectPriority` | src/App.jsx:236 | The priority selector's change handler sets the priority draft and nothing else. |
| `TaskApp.App.BeginFetch` | src/App.jsx:40-48 | Raises the busy flag, registers a pending query, and changes neither the mirror nor the drafts. |
| `TaskApp.App.SettleFetch` | src/App.jsx:50-61 | On success the mirror holds exactly the returned rows (`[]` when there is no data), in fresh objects. On failure the mirror is unchanged. Either way `loading` is false. |
| `TaskApp.App.FetchTasks` | src/App.jsx:40-62 | The whole load: failure leaves the mirror unchanged, success replaces it with the returned rows, and `loading` ends up false. |
| `TaskApp.App.BeginAdd` | src/App.jsx:64-83 | A title whose trim is empty changes nothing at all. Otherwise exactly one provisional record is prepended: trimmed title, current category and priority, not completed, no id, null owner. The drafts are reset to `''`, `'Personal'`, `'medium'`. |
| `TaskApp.App.SettleAdd` | src/App.jsx:85-114 | On success every object identical to the provisional record is replaced by the returned row. On failure every such object is filtered out and the drafts get back the submitted values. |
| `TaskApp.App.AddTask` | src/App.jsx:64-115 | The whole add: a blank title changes nothing. Success leaves the returned row in front of the old mirror and the drafts reset. Failure leaves the old mirror and the drafts as submitted, with the title trimmed. |
| `TaskApp.App.HandleKeyPress` | src/App.jsx:182-186 | Only `'Enter'` while not loading starts `addTask`. Any other key, or any key while loading, changes nothing. |
| `TaskApp.App.BeginToggle` | src/App.jsx:117-121 | Every record with the id is copied into a new object with `completed = !completed`. The other records are untouched. |
| `TaskApp.App.SettleToggle` | src/App.jsx:123-147 | Success keeps the mirror. Failure writes the `completed` argument to every record with the id. |
| `TaskApp.App.ToggleCompleted` | src/App.jsx:117-148 | The whole toggle: success leaves the matching records at `!completed`. Failure leaves them at `completed`, with the other records untouched. If `completed` was their prior value, failure gives back the fields of the old mirror. |
| `TaskApp.App.BeginDelete` | src/App.jsx:150-157 | A declined confirmation changes nothing. Otherwise the first record with the id is kept aside and every record with the id is removed; the others stay, in order. |
| `TaskApp.App.SettleDelete` | src/App.jsx:159-179 | Success keeps the mirror. Failure appends the kept copy at the end. |
| `TaskApp.App.DeleteTask` | src/App.jsx:150-180 | The whole delete: declined, nothing changes. Confirmed and successful, every record with the id is gone. Confirmed and failed, the first-found copy comes back at the end. When the id was unique, that is a permutation of the old mirror. |
| `Tasks.PriorityColor` | src/App.jsx:188-195 | `'high'`, `'medium'` and `'low'` map to `#ffcccc`, `#ffffcc` and `#ccffcc`, and each colour only to its priority. Every other value maps to `#fff`. |
| `Tasks.Received` | src/App.jsx:54 | Stored rows are exactly the received rows, each in a freshly allocated object. |
| `Tasks.ReplaceProvisional` | src/App.jsx:80-103 | Replacing the just-prepended provisional record by identity puts the returned row at the head. The rest of the list is unchanged, in length and at every position. |
| `Tasks.ReplaceTouchesOnlyObj` | src/App.jsx:101-103 | Replace-by-identity keeps the length. It changes exactly the positions holding that object. |
| `Tasks.RemoveProvisional` | src/App.jsx:80-95 | Filtering out the just-prepended provisional record by identity gives back exactly the list it was prepended to. |
| `Tasks.RemoveObjKeepsOthers` | src/App.jsx:95-110 | Filtering by identity keeps every other record, as often as it occurred and in relative order. Nothing with that identity is left. |
| `Tasks.SetCompletedEffect` | src/App.jsx:119-121 | Matching records get the new `completed` and keep every other field. Non-matching records are unchanged objects. |
| `Tasks.ToggleThenRevert` | src/App.jsx:119-136 | The optimistic toggle followed by its rollback is a single write of the rollback value to the matching records. |
| `Tasks.RevertRestoresRows` | src/App.jsx:134-136 | When the matching records all had `completed` before, toggle-then-rollback restores the fields of the whole mirror. Only object identities differ. |
| `Tasks.ToggleDetachesProvisional` | src/App.jsx:101-121 | Toggling a provisional record before its insert resolves copies it into a new object. The insert's replace-by-identity then finds nothing and leaves the mirror as the toggle made it. |
| `Tasks.DeleteKeepsOthers` | src/App.jsx:157 | Filtering by id removes every record with the id. It keeps all others, as often as they occurred, and distributes over concatenation, so order is kept. |
| `Tasks.FindIdFirst` | src/App.jsx:156 | `find` by id returns `undefined` exactly when no record has the id, and otherwise the first record that has it. |
| `Tasks.DeleteOnly` | src/App.jsx:157 | Removing the only record with an id closes the gap it leaves. |
| `Tasks.DeleteRollbackPermutes` | src/App.jsx:156-178 | With a unique id, delete-then-rollback moves the record, with all its fields, to the end: a permutation of the old mirror. |
| `Js.TrimSlice` | src/App.jsx:65-71 | `trim` returns a contiguous slice of its input. What it cuts off on both sides is all whitespace. |
| `Js.TrimEnds` | src/App.jsx:71 | Neither end of a trimmed title is whitespace. |
| `Js.TrimBlank` | src/App.jsx:65-68 | `title.trim() === ''` exactly when every character of the title is whitespace. |
| `Js.TrimExact` | src/App.jsx:71 | Trim removes exactly the surrounding whitespace of a string that neither starts nor ends with whitespace. |
| `Js.TrimIdempotent` | src/App.jsx:71-96 | The title restored after a failed insert is already trimmed, so resubmitting it submits the same title. |
| `Js.Filter` | src/App.jsx:95 | `filter` returns at most as many elements, only ones that pass, and the whole input when every element passes. |
| `Js.FilterKeeps` | src/App.jsx:95 | `filter` keeps exactly the passing elements, each as often as it occurs. |
| `Js.FilterConcat` | src/App.jsx:157 | `filter` distributes over concatenation, which is what "keeps relative order" means. |
| `Js.FilterRemovesOnly` | src/App.jsx:157 | Filtering out the only rejected element gives the list without that position. |
| `Js.Find` | src/App.jsx:156 | `find` returns `undefined` exactly when nothing passes, and otherwise the first element that passes. |

## Left out

- Remote store calls (query, insert, update, delete; src/App.jsx:43-48, 86-89, 124-128, 160-164): they go to an external client library. Each is an outcome input.
- Server-side ordering by priority and creation time (src/App.jsx:47-48): the store does it, so the model makes no promise about the order of a loaded mirror.
- Row filtering by owner (`user_id is null`): the store applies it, so the model does not promise that loaded rows are public.
- Real-time subscription and its teardown (src/App.jsx:11-38): asynchronous event delivery and resource lifecycle. A change notification only re-invokes `fetchTasks`, which is `FetchTasks`, or `BeginFetch` then `SettleFetch`.
- `alert`, `console.*` and the confirmation dialog: no effect on state. The dialog's answer is the `confirmed` input.
- Rendering and styling (src/App.jsx:197-334), including controls disabled while `loading`: this is UI. The handlers do not check the flag themselves, so the model does not require `!loading` of them. `handleKeyPress` does check it, and the model does too.
- Races between handlers and reloads: the Begin/Settle methods can be interleaved and each step's contract holds, but no property of a whole interleaving is proved except `Tasks.ToggleDetachesProvisional`.
- Stale closures: `deleteTask` reads `tasks` from the render it was created in. The model reads the mirror as it is when `BeginDelete` runs.
- TaskApp.App.BeginDelete: requires, when confirmed, a record with the id in the mirror. Otherwise `tasks.find` returns `undefined` and a failed delete would append `undefined` to the mirror. That case cannot arise from the code that calls it, since the delete button is rendered per task and passes that task's id. The same precondition is on `TaskApp.App.DeleteTask`.
- TaskApp.App.SettleAdd: an insert response whose data array is empty (so `data[0]` is `undefined`) is not modelled. The success outcome carries the first returned row.
- Strings are sequences of Unicode scalar values rather than UTF-16 code units. `Trim` uses ECMAScript's whitespace and line-terminator code points.
- Identifier types: `TaskId` is an unbounded integer and `UserId` a string. Only equality on them matters here.
- src/py.py is not part of this model: it is a notebook display demo unrelated to the controller.
