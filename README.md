# Multi-list to-do store, modelled in Dafny

This project models the in-memory list store of the multi-list to-do page
(`todo-app/app.js`). The page keeps two pieces of module-level state: `lists`,
an ordered sequence of named lists, each holding an ordered sequence of tasks;
and `currentListId`, which is `null` on the dashboard or the id of the list
being viewed. Handler functions update this state in place and then save the
whole collection to browser storage.

The model is a class `Store.ListStore` with three fields:

- `lists` holds the lists.
- `current` is the current list id. It is `None` for `null`.
- `stored` is the last snapshot written to storage under `todoLists`.

Each store function is a method that changes these fields. Its postcondition
states the new state in full and the invariants it keeps:

- list names are pairwise distinct ignoring case (`Records.NamesUnique`);
- list ids are pairwise distinct (`Records.ListIdsUnique`);
- a truthy current id names an existing list (`ListStore.CurrentExists`).

Lists and tasks are datatype values (`Records.TodoList`, `Records.Task`). The
JavaScript library operations the store relies on are pure functions with
proved properties:

- `trim` is `Text.Trim`, with the full ECMAScript whitespace set;
- `toLowerCase` is `Text.Lower`, ASCII only;
- `find` is `Records.FindList`, `Records.FindTask` and `Records.FindNameClash`;
- `filter` is `Sequences.Filter`;
- the two `splice` calls that move a task are `Sequences.Moved`, with the
  clamping of the insertion index written out in `Sequences.SpliceStart`.

Some inputs come from outside the store and are passed in as parameters:

- fresh ids from `generateId`;
- clock readings from `new Date()`;
- the key and index of a keyboard event;
- the `document.hidden` flag and the lists read back from storage on a
  visibility change.

`Store.GroceriesScenario` walks through one session: create "Groceries", add
"Milk" and "Eggs", complete "Milk", delete "Eggs". It ends with one list that
holds only the completed "Milk" task, and that state is also the saved
snapshot. `Store.RejectCaseVariant` adds "Groceries" and then "GROCERIES" and
ends with the one list.

The model follows the code in these details:

- Task operations work on the current list. They take no list id.
- `createListObject` reads the clock twice, so `createdAt` and `updatedAt`
  are two separate parameters and may differ.
- `reorderTasks` is defined for every index. A `fromIndex` that names no task
  is a no-op. A `toIndex` out of range is clamped as `splice` clamps it.
- `toggleTaskCompletion` stamps the list and saves only when it finds the
  task. `deleteTask` stamps and saves even when no task matched.
- Names stay unique ignoring case only while list ids are unique. A reload can
  also bring in any collection at all.

## Model

| member | source | states |
|---|---|---|
| Text.Trim | todo-app/app.js:109 | the trimmed string is empty exactly when every character is ECMAScript whitespace or a line terminator, and otherwise neither its first nor its last character is one |
| Text.TrimIsSlice | todo-app/app.js:109 | the trimmed string is a slice of the input with only ECMAScript whitespace and line terminators before and after it |
| Text.TrimOfTrimmed | todo-app/app.js:124 | a string with no whitespace at either end is its own trim |
| Text.TrimIdempotent | todo-app/app.js:823-825 | trimming twice gives the same as trimming once, so the handler trimming the input before `addList` trims it again changes nothing |
| Text.Lower | todo-app/app.js:534 | lower-casing keeps the length, turns each ASCII capital into its small letter, keeps every other character, and leaves no capital |
| Text.CaseVariantsCollide | todo-app/app.js:534 | two names count as the same name exactly when they have the same length and each character is the other's or its other ASCII case |
| Records.CaseVariantIsTaken | todo-app/app.js:534-535 | a name that a list holds in other ASCII cases is taken, so `addList` rejects it |
| Records.CreateListObject | todo-app/app.js:106-114 | a new list has the given id and timestamps and no tasks; its name is the trimmed input: empty exactly when the input is all whitespace, and otherwise with no whitespace at either end |
| Records.CreateTaskObject | todo-app/app.js:121-128 | a new task has the given id and timestamp and is not completed; its text is the trimmed input: empty exactly when the input is all whitespace, and otherwise with no whitespace at either end |
| Records.FindById | todo-app/app.js:561 | the result is the index of the first element with the id, and it is absent exactly when no element has that id |
| Records.FindList | todo-app/app.js:561 | the result is the index of the first list with the id, and it is absent exactly when no list has that id |
| Records.FindTask | todo-app/app.js:671 | the result is the index of the first task with the id, and it is absent exactly when no task has that id |
| Records.FindNameClash | todo-app/app.js:573 | the result is a list, not skipped by id, whose name equals the trimmed name ignoring case; it is absent exactly when no such list exists |
| Records.AddListCheck | todo-app/app.js:534-535 | the duplicate check of `addList` fires exactly when some list already has the trimmed name ignoring case |
| Records.EditListCheck | todo-app/app.js:573-574 | the duplicate check of `editListName` fires exactly when a list with another id has the trimmed name ignoring case |
| Records.AppendKeepsUnique | todo-app/app.js:540-541 | appending a trimmed name that no list holds keeps names unique; appending a fresh id keeps ids unique |
| Records.RenameKeepsUnique | todo-app/app.js:572-579 | when names and ids are unique, a rename that passes the duplicate check keeps both unique |
| Records.RenameNeedsUniqueIds | todo-app/app.js:573-579 | with two lists sharing one id, renaming one of them to the other's name in upper case passes the duplicate check and breaks name uniqueness |
| Records.RenameToOwnNameInOtherCase | todo-app/app.js:573 | with unique names, renaming a list to its own name in another case passes the `editListName` check, although `addList` counts that name as taken |
| Records.SubsequenceKeepsUnique | todo-app/app.js:598 | removing lists keeps names unique and ids unique |
| Records.WithoutList | todo-app/app.js:598 | deleting a list never lengthens the collection and leaves no list with the id |
| Records.WithoutListSpec | todo-app/app.js:598 | deleting a list keeps the other lists as a subsequence in their original order, with their multiplicities, and leaves none with the id; an absent id changes nothing; names and ids stay unique |
| Records.WithoutTask | todo-app/app.js:704 | deleting a task never lengthens the task list and leaves no task with the id |
| Records.WithoutTaskSpec | todo-app/app.js:704 | deleting a task keeps the other tasks as a subsequence in their original order, with their multiplicities, and leaves none with the id; an absent id changes nothing |
| Records.Toggled | todo-app/app.js:671-673 | toggling keeps the length and every task's id, and with no task of that id changes nothing |
| Records.ToggledSpec | todo-app/app.js:671-673 | toggling flips `completed` on the first task with the id only; ids, texts, timestamps and the length stay the same |
| Records.ToggleTwice | todo-app/app.js:673 | toggling the same task id twice restores the original tasks |
| Sequences.Filter | todo-app/app.js:598 | filtering never lengthens a sequence, and every element it keeps passes the predicate |
| Sequences.FilterSpec | todo-app/app.js:704 | the filtered sequence is a subsequence of the input; it keeps each accepted element as often as the input has it and drops every rejected one |
| Sequences.FilterKeepAll | todo-app/app.js:598 | a filter that rejects nothing returns its input |
| Sequences.SpliceStart | todo-app/app.js:297 | the insertion index is within the sequence, and an in-range start is used as given |
| Sequences.Moved | todo-app/app.js:290-297 | the move keeps the length and the multiset of tasks, and puts the moved task at `to` when `to` is in range |
| Sequences.MovedAt | todo-app/app.js:294-297 | the move is a remove-then-insert: outside the range between `from` and `to` nothing moves, inside it every task shifts by one toward `from`, and the moved task lands at `to` |
| Sequences.MoveBack | todo-app/app.js:294-297 | moving a task from `from` to `to` and then back from `to` to `from` restores the sequence |
| Store.KeyboardMove | todo-app/app.js:311-331 | ArrowUp asks to move one place back and ArrowDown one place forward; for a rendered task the target index is in range, and no move is asked for the first task on ArrowUp, the last task on ArrowDown, or any other key |
| Store.KeyboardMoveUndone | todo-app/app.js:316-329 | over task positions, a keyboard move names two in-range tasks, and the opposite arrow pressed on the moved task undoes it |
| Store.MovePlacesBesideTarget | todo-app/app.js:247-254 | over task positions, after a drop the dragged task sits right after its drop target when moving forward and right before it when moving backward, as the page's element order has it |
| Store.PlaceholderPageAfterMove | todo-app/app.js:339-346 | on the page [placeholder, t1, t2], moving the element at 1 before the one at 0 leaves the task elements in the order t1, t2 |
| Store.PlaceholderMisdirectsKeyboardMove | todo-app/app.js:312-313 | on the page [placeholder, t1, t2] that shows the tasks [t1, t2], ArrowUp on t1 asks to move index 1 to 0, which moves t2 in the data while the page keeps t1 before t2; ArrowUp on t2 asks for index 2, which names no task |
| Store.TaskPositionFindsShownTask | todo-app/app.js:312-313 | when the task elements show the tasks in order, wherever a placeholder sits, a task element's position among the task elements is its task's index, and the keyboard move over positions names in-range tasks |
| Store.CorrectedKeyboardMoveOnPlaceholderPage | todo-app/app.js:316-329 | over task positions, on the page [placeholder, t1, t2], ArrowUp on t1 asks for no move and ArrowUp on t2 moves t2 to the front |
| Store.MoveFirstToLast | todo-app/app.js:294-297 | moving index 0 to index 2 on [A, B, C] gives [B, C, A] |
| Store.ListStore.HasCurrent | todo-app/app.js:284 | a truthy current id is present, and the empty string is not truthy |
| Store.ListStore.constructor | todo-app/app.js:56-57 | the page starts on the dashboard with no lists |
| Store.ListStore.Save | todo-app/app.js:78-85 | saving makes the stored snapshot equal to `lists` and changes no other state |
| Store.ListStore.AddList | todo-app/app.js:525-553 | an all-whitespace name or a name held ignoring case changes nothing; otherwise exactly one new list is appended after the unchanged earlier lists and saved; names, ids (for a fresh id) and the current list stay valid |
| Store.ListStore.EditListName | todo-app/app.js:560-591 | an unknown id, an all-whitespace name or a name held by a list with another id changes nothing; otherwise the first list with the id gets the trimmed name and a new `updatedAt`, nothing else changes, and the lists are saved; name uniqueness is kept when ids are unique |
| Store.ListStore.DeleteList | todo-app/app.js:597-608 | every list with the id is removed and the rest keep their order; the lists are saved; the current list is cleared exactly when it was that id; the invariants are kept |
| Store.ListStore.UpdateListMetadata | todo-app/app.js:614-620 | the first list with the id gets a new `updatedAt` and the lists are saved; with no such list nothing changes |
| Store.ListStore.AddTask | todo-app/app.js:628-659 | on the dashboard, for an all-whitespace text, or when the current list is gone nothing changes; otherwise the current list gains one task at the end with the trimmed text, not completed, and a new `updatedAt`; other lists are untouched and the lists are saved |
| Store.ListStore.ToggleTask | todo-app/app.js:665-692 | with no current list, a missing current list or an unknown task nothing changes; otherwise the current list's tasks become their toggled form, the list gets a new `updatedAt` and the lists are saved |
| Store.ListStore.DeleteTask | todo-app/app.js:698-718 | with no current list or a missing current list nothing changes; otherwise every task with the id leaves the current list, the list gets a new `updatedAt` even if no task matched, and the lists are saved |
| Store.ListStore.ReorderTasks | todo-app/app.js:283-304 | with no current list, a missing current list or a `fromIndex` that names no task nothing changes; otherwise the current list's tasks are moved from `fromIndex` to `toIndex`, the list gets a new `updatedAt` and the lists are saved |
| Store.ListStore.ShowDashboard | todo-app/app.js:361-366 | no list is current and the lists are untouched |
| Store.ListStore.ShowListView | todo-app/app.js:372-387 | an existing list becomes current; an unknown id changes nothing |
| Store.ListStore.OnVisible | todo-app/app.js:1054-1074 | once the page is visible, `lists` equals what was read back; if that differs from the old lists and a truthy current id has vanished, the dashboard is shown, and afterwards a truthy current id names an existing list; reading back the same lists just saved changes nothing |

## Left out

- Rendering, list cards, task elements, `escapeHtml`, modals, alerts, focus
  handling, timers and theme toggling are user interface, not store state.
- The page-side part of drag and drop and of `moveTask` is left out: it
  reorders page elements. Only the call into `reorderTasks` is modelled. The
  page's task container is modelled only as the sequence of its children
  (`Store.Child`), to show how its indices relate to the tasks.
- Store.KeyboardMoveUndone: it works with positions among the task elements.
  The source passes indices among all children of the container, and these
  are one too high while the "No tasks yet" paragraph is still a child: it is
  written for an empty list (app.js:506-507) and stays when `addTask` appends
  (app.js:653). See "## Findings".
- Store.MovePlacesBesideTarget: it works with positions among the task
  elements. `draggedIndex` and `dropIndex` (app.js:168, 240) count the
  paragraph too, so the page and data orders agree only when no paragraph is
  a child.
- The task index that `handleTaskKeyboard` reads from the page is a parameter.
- Event wiring and `initializeApp` are plumbing. The initial load from storage
  they perform is not modelled; the constructor starts from the state at
  lines 56-57.
- Store.ListStore.Save: a failed storage write (the caught `setItem` error)
  is not modelled. Every save succeeds.
- `JSON.stringify` and `JSON.parse` are library code. The reload comparison of
  two serialisations is value inequality. Parse failures and missing storage
  are covered by `loaded` being any sequence, the empty one included.
  Malformed stored records, such as non-string names, cannot be expressed: the
  source would throw on them.
- Text.Lower: only ASCII letters are lowered. The full Unicode case mapping of
  `toLowerCase` is not modelled, including mappings that change a string's
  length.
- `generateId` (time plus randomness) and ISO-8601 timestamps are not
  modelled. Ids and clock readings are parameters, and freshness of an id is a
  stated assumption (`Records.IdFresh`), not a guarantee.
- Uniqueness of task ids within a list is not stated. The source never checks
  it and relies on `generateId`.
- `reorderTasks` is modelled for integer indices only. Fractional JavaScript
  numbers are not modelled.
- Lists and tasks are values, not shared objects. Object identity and aliasing
  are not modelled; the store never holds a reference across calls.
- `Valentines Day Project/script.js` is not part of this model.

## Findings

| source | as written | input that shows it | evidently intended | confidence | as-written member | corrected member |
|---|---|---|---|---|---|---|
| todo-app/app.js:312-313 | the keyboard handler, and likewise the drag handlers at lines 168 and 240, index all children of the task container, the "No tasks yet" paragraph included | open an empty list, add tasks t1 and t2 (page: [paragraph, t1, t2]), press ArrowUp on t1: `reorderTasks(1, 0)` moves t2 to the front while the page keeps t1 before t2; ArrowUp on t2 asks `reorderTasks(2, 1)`, which names no task, while the page moves t2 | index the task elements only, so that the element used is the task moved | not executed | Store.PlaceholderMisdirectsKeyboardMove | Store.TaskPositionFindsShownTask |
