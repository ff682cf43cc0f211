# To-do list task store, in Dafny

A model of the task store of a single-page to-do list (`script.js`). The page
keeps one list of tasks. Each task has an id, a text, a completed flag and a
creation time. Five actions change the list: add, toggle, edit, delete one
task, and clear the completed tasks. After every change the page re-renders
two lists: active tasks and completed tasks, each sorted by creation time.
The page also has a light/auto colour theme switch.

Layout:

- `wrappers.dfy`: `Option`.
- `seqs.dfy` (module `Seqs`): `Filter`, the order-keeping selection behind
  `Array.prototype.filter`, with its lemmas.
- `text.dfy` (module `Text`): `String.prototype.trim` over ECMAScript's
  WhiteSpace and LineTerminator characters (ECMA-262, sections 12.2 and
  12.3).
- `tasks.dfy` (module `Tasks`): the `Task` record, first-match lookup
  (`find`), and each of the five actions as a function from the old list to
  the new one, with lemmas about each action.
- `view.dfy` (module `TaskView`): `render`'s active/completed split, a stable
  sort by `createdAt`, and the counters and button state derived from them.
- `theme.dfy` (module `Theme`): the next-theme rule, and a small class for
  the `data-theme` attribute and the saved preference.
- `store.dfy` (module `Store`): class `TaskStore`. It holds the task list
  and what local storage holds under the tasks key. It has one method per
  action, each proved to produce the list its `Tasks` function gives. Each
  method also says whether it calls `save`. Each keeps the invariant that
  text is trimmed and non-empty. Each keeps ids unique, `AddTask` only when
  the new id is fresh.

Where the code and the informal description of the app differ, the model
follows the code:

- Deleting removes every task with the given id, not exactly one.
  `RemovedUniqueDropsOne` shows that exactly one goes only when ids are
  unique.
- Id uniqueness is never enforced; ids are random. `UniqueIds` is a
  hypothesis of the lemmas that need it.
- Not every successful path saves. An edit to blank text re-renders but
  does not save. A delete always saves, even when no task had the id.

## Model

| member | source | states |
|---|---|---|
| Seqs.Filter | script.js:154 | the result is no longer than the input and holds only input elements that pass the test |
| Seqs.FilterMultiset | script.js:161 | every passing element is kept as often as it occurs in the input, and every failing one is dropped |
| Seqs.FilterAppend | script.js:154 | filtering a concatenation filters each part, so filtering keeps relative order |
| Seqs.FilterSplit | script.js:58-59 | filtering by a test and by its negation gives two parts whose multisets add up to the input, and whose lengths sum to its length |
| Text.TrimStart | script.js:124 | the result is a suffix of the input, everything dropped is whitespace, and it does not start with whitespace |
| Text.TrimEnd | script.js:124 | the result is a prefix of the input, everything dropped is whitespace, and it does not end with whitespace |
| Text.Trim | script.js:124 | the result is no longer than the input and, when non-empty, neither starts nor ends with whitespace |
| Text.TrimBlank | script.js:124-125 | trimmed input is empty exactly when every input character is whitespace |
| Text.TrimIsSlice | script.js:142 | the trimmed text is a contiguous slice of the input, with only whitespace before and after it |
| Text.TrimIdempotent | script.js:142-148 | trimming an already trimmed text changes nothing, so stored text stays trimmed |
| Tasks.FindIndex | script.js:132 | `None` exactly when no task has the id; otherwise the index of a task with the id, and no earlier task has it |
| Tasks.AddedNoopIffBlank | script.js:123-125 | adding leaves the list unchanged exactly when the input is all whitespace |
| Tasks.AddedAppendsOne | script.js:126 | non-blank input appends exactly one task at the end, with the given id and time, the trimmed text and `completed` false; earlier tasks are unchanged |
| Tasks.AddedWellFormed | script.js:124-126 | if every stored text was trimmed and non-empty before an add, this still holds after it |
| Tasks.AddedUniqueIds | script.js:126 | adding with an id no task has keeps ids unique |
| Tasks.AddedIsActive | script.js:126 | the new task ends up last among the active tasks; the completed tasks are unchanged |
| Tasks.FindIndexSameIds | script.js:132-134 | two lists with the same ids at each position have the same first match |
| Tasks.ToggledFlipsFirstMatch | script.js:131-134 | an unknown id changes nothing; otherwise the first task with the id has its flag flipped, its other fields kept, and every other task is unchanged |
| Tasks.ToggledTwice | script.js:134 | toggling the same id twice restores the list |
| Tasks.ToggledPreserves | script.js:134 | toggling keeps texts trimmed and non-empty and keeps ids unique |
| Tasks.UpdatedChangesFirstMatch | script.js:139-148 | blank text or an unknown id changes nothing; otherwise the first task with the id takes the trimmed text, keeping its id, flag and time, and every other task is unchanged |
| Tasks.UpdatedTwice | script.js:140-148 | repeating an edit changes the list no further |
| Tasks.UpdatedPreserves | script.js:142-148 | editing keeps texts trimmed and non-empty and keeps ids unique |
| Tasks.RemovedKeepsOthers | script.js:154 | no remaining task has the id; every task with another id is kept, as often as before |
| Tasks.RemovedAppend | script.js:154 | removing from a concatenation removes from each part, so the survivors keep their order |
| Tasks.RemovedUnknown | script.js:154 | removing an id no task has leaves the list unchanged |
| Tasks.RemovedUniqueDropsOne | script.js:153-154 | with unique ids, removing an existing id deletes exactly that one record, so the list gets one shorter |
| Tasks.RemovedPreserves | script.js:154 | removal keeps texts trimmed and non-empty and keeps ids unique |
| Tasks.ClearedIsActive | script.js:159-161 | the result is always exactly the active tasks in their original order; the `some` guard only skips work |
| Tasks.ClearedNoopIff | script.js:160-161 | clearing leaves the list unchanged exactly when no task is completed; the result holds no completed task, and every active task is kept as often as before |
| Tasks.ClearedIdempotent | script.js:161 | clearing twice is clearing once |
| Tasks.ClearedPreserves | script.js:161 | clearing keeps texts trimmed and non-empty and keeps ids unique |
| TaskView.Insert | script.js:50 | inserting one task adds exactly that task, and keeps a creation-time-sorted list sorted |
| TaskView.SortByCreated | script.js:58-59 | the result is a permutation of the input, in ascending creation time |
| TaskView.InsertCreatedAt | script.js:50 | an inserted task lands before every task with the same creation time |
| TaskView.SortedIsStable | script.js:58-59 | the sort is stable: tasks with equal creation times keep their relative order |
| TaskView.RenderPartitions | script.js:58-59 | every task is in exactly one of the two lists, as often as in the task list, so the lengths sum to the list's length |
| TaskView.RenderSeparates | script.js:58-59 | the active list holds only unfinished tasks and the completed list only finished ones, each sorted by creation time |
| TaskView.RenderKeepsListOrder | script.js:58-59 | in each displayed list, tasks with the same creation time appear in task-list order |
| TaskView.RenderEmptyIff | script.js:65-66 | the active list is empty exactly when every task is completed; the completed list is empty exactly when none is |
| TaskView.RenderControls | script.js:65-71 | each counter is the length of its displayed list, which is the number of active (resp. completed) tasks, and the two sum to the list's length; the empty-state notes show exactly when their list has nothing to show; "Clear completed" is disabled exactly when no task is completed, which is exactly when clearing would change nothing |
| Theme.OrAuto | script.js:243 | a missing or empty value reads as "auto"; any other value reads as itself |
| Theme.NextThemeLandsOnKnown | script.js:248 | the next theme is "light" or "auto", and never the current theme |
| Theme.NextThemeTwice | script.js:247-248 | switching twice returns to the start exactly when the start is "light" or "auto"; any other start ends on "auto" |
| Theme.ThemeSwitch.constructor | script.js:242-245 | at start-up the attribute is the saved preference, or "auto" |
| Theme.ThemeSwitch.Toggle | script.js:246-251 | when the storage write succeeds, the attribute and the saved preference both become the theme after the current one, and from "light" or "auto" the theme always changes; when the write throws, nothing changes |
| Store.TaskStore.constructor | script.js:40-46 | a stored array becomes the task list; anything else gives an empty list |
| Store.TaskStore.Save | script.js:37-39 | storage holds the whole list, and loading it back gives the same list |
| Store.TaskStore.AddTask | script.js:123-129 | the list becomes `Added` of the old one; blank input saves nothing; the text invariant is kept, and so is id uniqueness when the new id is fresh |
| Store.TaskStore.ToggleTask | script.js:131-137 | the list becomes `Toggled` of the old one; an unknown id saves nothing; both invariants are kept |
| Store.TaskStore.UpdateTask | script.js:139-151 | the list becomes `Updated` of the old one; an unknown id or blank text saves nothing; both invariants are kept |
| Store.TaskStore.RemoveTask | script.js:153-157 | the list becomes `Removed` of the old one and is always saved; both invariants are kept |
| Store.TaskStore.ClearCompleted | script.js:159-164 | the list becomes `Cleared` of the old one; it saves only when some task was completed; both invariants are kept |

## Left out

- DOM work is not modelled: `renderItem`, `iconButton`, `iconSvg`, clearing the lists, `style.display` and `textContent`. `TaskView.Render` gives the data they display. The counter labels (`"3 active"`) are kept as numbers, without their text.
- The store does not re-render after an action. The page after an action is `TaskView.Render` of the new list.
- `uid` (`Math.random`, `Date.now`) and the `Date.now()` in addTask use randomness and the clock. The id and the time are method parameters. Id uniqueness is a hypothesis (`UniqueIds`), not a proved fact.
- JSON encoding and decoding are not modelled. Stored text that parses to an array is taken to be a list of well-typed task records; a parsed array holding other values is not modelled. A `getItem` that throws counts as `Unparsable`.
- Storage write failures (a full quota) are not modelled. `Save` always succeeds; the source ignores such failures and keeps the in-memory list.
- `createdAt` is an unbounded integer. JavaScript numbers are doubles, and a loaded record with no `createdAt` would make `byCreated` return NaN.
- JavaScript strings are UTF-16 code units; here a string is a sequence of Unicode scalar values. Every character `trim` removes is in the Basic Multilingual Plane, so the whitespace set is the same. Lone surrogates are not modelled.
- `Text.IsSpace` lists the Unicode "Zs" characters as fixed in current Unicode versions. A future Unicode version could add to them.
- Tasks are values, not shared objects. Aliasing is not modelled: the `task` object captured by `renderItem` and `startEdit` closures sees in-place changes in the source.
- Event plumbing is not modelled: inline editing (`startEdit`, `finishEdit`, key and blur handlers), the confirmation modal, and the form's submit handler. The submit handler's own `text.trim()` check repeats addTask's check. The modal's `if(toDeleteId)` skips an empty id. The only store logic these reach is `AddTask`, `UpdateTask`, `RemoveTask` and `ClearCompleted`.
- Theme.ThemeSwitch.constructor: does not model a `localStorage.getItem` for the theme key that throws. That read is not guarded, so the exception would stop start-up before the task list is loaded and rendered. The constructor always sets the attribute.
