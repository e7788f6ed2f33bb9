# TaskFlow task store in Dafny

TaskFlow is a browser task list. Its logic lives in `script.js`. A
module-level array `tasks` holds task records
`{id, title, desc, dueDateTime, completed, createdAt}`, newest first. Five
operations change that array: add from the form, toggle completion, delete,
edit, and clear completed. `render` reads the array through a filter value
(`all`, `pending`, `completed`) and three counters. Titles and descriptions
go through `escapeHtml` before they are placed in the page.

This project models that store and proves what it promises.

- `text.dfy`, module `Text`. `Trim` models `String.prototype.trim`, using
  ECMAScript's whitespace and line-terminator characters. `EscapeHtml` is
  the source's three chained global replacements. `EscapeEach` is a
  single-pass reference escaper. `Unescape` decodes the three entities
  `&amp;`, `&lt;` and `&gt;` and keeps every other character.
- `lists.dfy`, module `Lists`. `Keep` models `Array.prototype.filter`.
  `IsSubsequence` means "obtained by deletion, order kept".
- `tasks.dfy`, module `Tasks`. It holds the `Task` record and
  `FirstIndex`, which models `tasks.find(x => x.id === id)`. Each operation
  has a function giving the list after it: `AddTask`, `Toggled`, `Without`,
  `Edited` and `Pending`. The reads are `View` and `CountsOf`. The lemmas
  about these functions state the store's properties. Two invariants are
  stated: unique ids, and trimmed non-empty titles.
- `store.dfy`, module `TaskFlow`. Class `TaskStore` has the fields `tasks`
  (a `seq<Task>`) and `filter`. Each mutation is a method that changes
  `tasks` in place, and its `ensures` ties the new list to the
  specification function applied to the old list. `FilteredView` and
  `Counters` are the two reads.

Inputs that come from outside the store are parameters:

- the random id and the clock time from `uid()` and `nowISO()`;
- the form field values;
- the two `prompt` results (`None` means the prompt was cancelled);
- the stored list for `load` (`None` means the slot is missing, empty or
  corrupt);
- `toIso`, which stands for `new Date(text)`, the `isNaN` test and
  `toISOString()`.

Behaviour worth noting:

- An edit trims the new description. It is not stored verbatim.
- On edit, a blank new title keeps the old title, but the description is
  still updated. The edit as a whole is not rejected.
- Not-found and blank-title cases return silently. No signal reaches the
  caller.
- Ids are random and never checked for uniqueness. `UniqueIds` is
  therefore proved preserved only when the added id is fresh. This is a
  precondition of the lemma `AddPreserves`, not of the method.
- Toggle and edit change only the first task with the id. Delete removes
  every task with the id.

## Model

| member | source | states |
|---|---|---|
| `Text.Trim` | script.js:114-117 | the model of `trim()`; specified by `TrimSpec`, `BlankIffAllWhitespace` and `TrimIdempotent` |
| `Text.EscapeHtml` | script.js:110 | the three chained global replacements, `&` first; specified by `EscapeHtmlNoAngleBrackets`, `EscapeHtmlLength`, `EscapeHtmlSinglePass` and `EscapeHtmlRoundTrip` |
| `Lists.Keep` | script.js:143 | the model of `filter`; specified by `KeepMembers`, `KeepIsSubsequence`, `KeepAllIff` and `KeepPartition` |
| `Tasks.DueText` | script.js:120-121 | the date-time text handed to the parser, with `00:00` for a missing time; its values are stated in the ensures of `TaskStore.AddTaskFromForm` |
| `Tasks.DueDateTime` | script.js:118-124 | the due date of a new task: none without a date, otherwise the parse of `DueText`; used in the ensures of `TaskStore.AddTaskFromForm` |
| `Tasks.AddTask` | script.js:113-127 | the list after an add; specified by `AddBlankUnchanged`, `AddAtHead`, `AddCounts` and `AddPreserves` |
| `Tasks.Toggled` | script.js:134-137 | the list after a toggle; specified by `ToggleSpec`, `ToggleTwice` and `TogglePreserves` |
| `Tasks.Without` | script.js:142-143 | the list after a delete; specified by `DeleteSpec`, `DeleteThenNotFound` and `FilterPreserves` |
| `Tasks.EditRecord` | script.js:153-154 | one record after an edit; specified by `EditRecordWellFormed` and, position by position, by `EditSpec` |
| `Tasks.Edited` | script.js:147-154 | the list after an edit; specified by `EditSpec`, `DeleteThenNotFound` and `EditPreserves` |
| `Tasks.Pending` | script.js:158-159 | the not completed tasks, which clearCompleted keeps and the pending view shows; specified by `ClearCompletedSpec`, `ViewPartition` and `FilterPreserves` |
| `Tasks.View` | script.js:67-71 | the filtered view for a filter value; specified by `ViewPartition` and `AddCounts` |
| `Tasks.CountsOf` | script.js:104-106 | the three counters; specified by `CountsConsistent`, `ClearCompletedSpec` and `AddCounts` |
| `Text.IsWhitespace` | script.js:114-117 | the characters `trim()` strips: ECMAScript's WhiteSpace and LineTerminator characters; specified by `TrimSpec` |
| `Text.IsBlank` | script.js:115 | the `!title` test after trimming; specified by `BlankIffAllWhitespace` |
| `Text.ReplaceAll` | script.js:110 | the model of `.replace(/c/g, rep)`; specified by `ReplaceAllMembers`, `ReplaceAllLength` and `EscapeHtmlSinglePass` |
| `Tasks.UpdateFirst` | script.js:135-137 | `find` by id followed by an assignment to the found record; specified by `UpdateFirstAt` |
| `Tasks.Completed` | script.js:104-106 | the completed tasks, which the completed view shows and the completed counter counts; specified by `ViewPartition`, `KeepPartition` and `ClearCompletedSpec` |
| `Text.TrimStart` | script.js:114 | trimming the front keeps a suffix of the input, every character cut off is whitespace, and the result does not start with whitespace |
| `Text.TrimEnd` | script.js:114 | trimming the back keeps a prefix of the input, every character cut off is whitespace, and the result does not end with whitespace |
| `Text.TrimSpec` | script.js:114 | `trim()` returns a contiguous slice of the input: only whitespace is cut, from both ends, and what is left has no whitespace at either end |
| `Text.BlankIffAllWhitespace` | script.js:115 | a title is rejected (empty after trimming) exactly when all of its characters are whitespace |
| `Text.TrimIdempotent` | script.js:117 | trimming an already trimmed text changes nothing |
| `Text.ReplaceAllMembers` | script.js:110 | every character produced by a global replace comes from the input and is not the replaced character, or comes from the replacement |
| `Text.ReplaceAllLength` | script.js:110 | a global replace with a non-empty replacement never shortens its input; it is the identity when the character is absent; it strictly lengthens the input when the character occurs and the replacement is longer than one character |
| `Text.EscapeHtmlNoAngleBrackets` | script.js:110 | escaped text contains no `<` and no `>` |
| `Text.EscapeHtmlLength` | script.js:110 | escaping never shortens its input, and it returns the input unchanged exactly when the input holds none of `&`, `<`, `>` |
| `Text.EscapeHtmlSinglePass` | script.js:110 | because `&` is replaced first, the three chained replacements equal escaping each character on its own: no entity written by one pass is rewritten by a later one |
| `Text.EscapeHtmlRoundTrip` | script.js:110 | decoding the three entities `&amp;`, `&lt;`, `&gt;` in the escaped text gives back the original text, so escaping loses nothing |
| `Lists.KeepMembers` | script.js:143 | `filter` keeps exactly the elements that satisfy its predicate |
| `Lists.KeepIsSubsequence` | script.js:159 | `filter` keeps the relative order of what it keeps |
| `Lists.KeepAllIff` | script.js:143 | `filter` returns its input exactly when every element passes |
| `Lists.KeepPartition` | script.js:105-106 | filtering by a predicate and by its negation splits the list: the two lengths add up to its length and the two multisets add up to its multiset |
| `Tasks.FirstIndex` | script.js:135 | `find` by id yields the first position holding that id; it yields nothing exactly when no task has the id |
| `Tasks.UpdateFirstAt` | script.js:135-137 | updating the first task with an id is a single-position update at the index `find` returns, and the identity when `find` finds nothing |
| `Tasks.AddBlankUnchanged` | script.js:114-115 | adding with a whitespace-only or empty title leaves the list unchanged |
| `Tasks.AddAtHead` | script.js:117-127 | a successful add grows the list by one and puts the new task first, the old tasks following in their order; the new task has the given id, creation time and due date, is not completed, and has a trimmed non-empty title and a trimmed description |
| `Tasks.ToggleSpec` | script.js:134-137 | toggling flips `completed` on the first task with the id and changes nothing else; with an absent id it changes nothing |
| `Tasks.ToggleTwice` | script.js:134-137 | toggling the same id twice restores the original list |
| `Tasks.DeleteSpec` | script.js:142-143 | deleting removes exactly the tasks with the id and keeps the others in their order, every copy of a kept record included: the kept and the removed tasks add up to the list as multisets and in length; it is the identity exactly when the id is absent; afterwards no task with the id remains |
| `Tasks.DeleteThenNotFound` | script.js:142-154 | after a delete, toggling or editing the same id finds nothing and changes nothing |
| `Tasks.EditSpec` | script.js:147-154 | a cancelled title prompt or an absent id changes nothing; otherwise only the first task with the id changes: a blank new title keeps the old title, any other title is trimmed; a cancelled description keeps the old one, any other is trimmed; id, due date, completion and creation time stay the same |
| `Tasks.ViewPartition` | script.js:67-71 | the pending and completed views are order-preserving subsequences holding exactly the not completed and the completed tasks; together they make up the list; any other filter value shows the whole list |
| `Tasks.CountsConsistent` | script.js:104-106 | total equals the number of tasks, and pending plus completed equals total |
| `Tasks.AddCounts` | script.js:104-106 | a successful add raises total and pending by one and leaves completed unchanged; the new task heads the all and pending views; the completed view does not change |
| `Tasks.ClearCompletedSpec` | script.js:158-159 | clearing keeps exactly the not completed tasks in their order; what is kept and what is cleared add up to the list as multisets; clearing again changes nothing; the pending count stays the same and the completed count becomes zero |
| `Tasks.KeepUniqueIds` | script.js:143 | filtering a list with unique ids yields a list with unique ids |
| `Tasks.AddPreserves` | script.js:126-127 | adding with a fresh id keeps ids unique and every record well formed |
| `Tasks.TogglePreserves` | script.js:137 | toggling keeps ids unique and every record well formed |
| `Tasks.EditRecordWellFormed` | script.js:153-154 | an edited record keeps its id, and a well-formed record stays well formed |
| `Tasks.EditPreserves` | script.js:153-154 | editing keeps ids unique and every record well formed: after an edit the title is still trimmed and non-empty, and the description is still trimmed |
| `Tasks.FilterPreserves` | script.js:143 | deleting and clearing completed keep ids unique and every record well formed |
| `TaskFlow.TaskStore.constructor` | script.js:30-31 | the store starts with no tasks and the filter `all` |
| `TaskFlow.TaskStore.Load` | script.js:56-62 | loading installs the stored list, or an empty list when the stored data is missing or corrupt |
| `TaskFlow.TaskStore.AddTaskFromForm` | script.js:113-127 | the new list is `AddTask` of the old one with the due date built from the date and time fields: unchanged for a blank title, otherwise one longer, with the new task first and not completed; no date means no due date, a date without a time is parsed as `date + "T00:00:00"`, and a date with a time as `date + "T" + time + ":00"` |
| `TaskFlow.TaskStore.ToggleComplete` | script.js:134-137 | toggles in place at the index `find` returns; the new list is `Toggled` of the old one, and is unchanged when the id is absent |
| `TaskFlow.TaskStore.DeleteTask` | script.js:142-143 | the new list is `Without` of the old one: it holds exactly the old tasks whose id differs |
| `TaskFlow.TaskStore.OpenEdit` | script.js:147-154 | edits in place at the index `find` returns; the new list is `Edited` of the old one, has the same length, and has the same id at every position |
| `TaskFlow.TaskStore.ClearCompleted` | script.js:158-159 | the new list is `Pending` of the old one: it holds exactly the old tasks that are not completed |
| `TaskFlow.TaskStore.SetFilter` | script.js:211 | choosing a filter sets the filter value |
| `TaskFlow.TaskStore.FilteredView` | script.js:67-71 | the view is `View` of the list and the filter; under `pending` the view holds exactly the not completed tasks; under `completed`, exactly the completed ones; under any other value, the whole list |
| `TaskFlow.TaskStore.Counters` | script.js:104-106 | the counters are `CountsOf` of the list; total is the number of tasks, and pending plus completed equals total |

## Left out

- DOM queries, the `innerHTML` template, the empty message and its random quote, confetti, the live clock and the event listeners (script.js:10-27, 73-102, 163-224) are presentation only. Of the listeners, only the filter assignment is kept, as `SetFilter`.
- `save` writes to `localStorage` and records a last-saved time (script.js:51-55). It is browser storage, so it is not modelled. As a result, `load(save(x)) == x` is not stated: it depends on `JSON.stringify`/`JSON.parse`.
- `load` (script.js:56-62) receives its result as an optional input. Stored JSON that parses to something other than a task array is not modelled. Neither is the last-saved display.
- `new Date`, the `isNaN` test and `toISOString` (script.js:121-122) are library code. They are the parameter `toIso`.
- `formatDue` and `toLocaleString` (script.js:43-48, 54, 61, 90, 93) only format dates for display. They are left out with the presentation.
- `uid()` and `nowISO()` (script.js:41-42) are random and clock-based. Their values are parameters.
- `prompt` and `confirm` (script.js:150-152, 204) are modal dialogs. Their results are inputs. A declined delete confirmation simply does not call `DeleteTask`.
- The five-second autosave snapshot loop (script.js:227-231) is timer plumbing.
- The demo task pushed at startup when the list is empty (script.js:234-237) is startup seeding. It is not a store operation.
- `escapeHtml`'s `String(str)` conversion and its default `''` (script.js:110) apply only to non-string arguments. The model takes strings.
- `Unescape` only decodes the three entities. It is not an HTML parser: the parser's CR and CRLF normalisation to LF and its dropping of U+0000 in body text are not modelled, so a title or description holding those characters is displayed differently from how it is stored.
- JavaScript strings are UTF-16 code units. The model's strings are sequences of Unicode scalar values.
- Loaded records whose `completed` is not a boolean are not modelled. For them, the source's truthiness tests could differ.
- Task records are values in a sequence rather than shared objects. In the source, a record is reached only through the `tasks` array, so no aliasing is lost.
