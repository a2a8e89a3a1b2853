# Task manager: the task list as a verified state machine

The task manager is a small browser page. It keeps a global array of tasks
and a global id counter `nextTaskId`. It changes them in three places:

- the form-submit handler adds a task;
- `deleteTask` removes tasks by id;
- `toggleTaskCompletion` flips a task's completion flag.

After each change, `renderTasks` redraws the list. For every task it picks a
row background from the priority, a name colour from the importance flag, and
a strike-through and a button label from the completion flag.

This project models that state and those choices as pure Dafny functions:

- `text.dfy`, module `Text`: `String.prototype.trim`, which is applied to the
  typed name. It has a declarative meaning (`IsTrimOf`) and a proof that the
  result is unique.
- `task_store.dfy`, module `TaskStore`: the `Task` record, the
  `Store(tasks, nextId)` state and its invariant `Valid`. Ids are positive,
  strictly increasing along the list and below the counter. The module holds
  `Submit` (the add logic of the submit handler), `Delete` and `Toggle`, with
  their frame conditions, idempotence and involution.
- `render.dfy`, module `Render`: the value selection of `renderTasks`. It
  shows that each part of a task's style is chosen from the matching task
  field and that the parts agree with each other. It shows that each row is
  styled after its own task, assuming every task renders as exactly one row
  (see "Left out"). It also shows that the toggle
  button's label says what a click will do.
- `session.dfy`, module `Session`: a page session as a sequence of user
  events, each dispatched to one operation. Over any run the invariant holds,
  the counter never goes back and ids are never reused. It also contains the
  walk-through "add Buy milk, complete it, add Call bank, delete the first",
  done for any two names and then for those two.

The clock reading stored with a task is a parameter (`Timestamp`). `Submit`
stores it and nothing else reads or changes it.

The model follows the code:

- Priority is any string. The code stores whatever the select box delivers
  and never validates it (taskmanager.js:23, 38). Unknown strings reach the
  default branch of the background choice.
- Ids are not reset or reused. `Delete` leaves `nextId` alone.
- `Toggle` flips only the FIRST task with the id, as `Array.prototype.find`
  does. `Delete` removes EVERY task with the id, as `filter` does. Under
  `Valid` there is at most one such task, so the two agree.

## Model

| member | source | states |
|---|---|---|
| Text.TrimStart | taskmanager.js:22 | the result is a suffix of the input; everything cut off is whitespace; the result does not start with whitespace |
| Text.TrimEnd | taskmanager.js:22 | the result is a prefix of the input; everything cut off is whitespace; the result does not end with whitespace |
| Text.Trim | taskmanager.js:22 | the trimmed name is a slice of the input with only whitespace outside it and none at its ends; it is empty exactly when the input is all whitespace |
| Text.CutEmptyIffAllWhitespace | taskmanager.js:22 | any such cut keeps nothing exactly when the whole input is whitespace |
| Text.CutBoundsUnique | taskmanager.js:22 | two non-empty cuts of the same input keep the same range |
| Text.TrimUnique | taskmanager.js:22 | any string that is a trim of the input in the declarative sense equals the computed trim |
| Text.TrimKeepsTrimmed | taskmanager.js:22 | a name without whitespace at its ends is stored as typed |
| Text.TrimIdempotent | taskmanager.js:22 | trimming twice is the same as trimming once |
| TaskStore.Initial | taskmanager.js:6-7 | the starting store has no tasks and counter 1, and satisfies the invariant |
| TaskStore.ValidIdsDistinct | taskmanager.js:7 | in a valid store, two different positions hold different ids |
| TaskStore.Submit | taskmanager.js:22-45 | rejected exactly when the trimmed name is empty, and then nothing changes. Otherwise exactly one task is appended after the unchanged old ones. Its id is the old counter and the counter grows by one. Its name is the non-empty trim of the input with no whitespace at either end. Priority, flags and date are stored as given |
| TaskStore.AppendPreservesValid | taskmanager.js:35-45 | appending a task carrying the counter value and advancing the counter keeps ids increasing, positive and below the counter |
| TaskStore.SubmitPreservesValid | taskmanager.js:22-45 | a submission, accepted or rejected, keeps the store valid |
| TaskStore.WithoutId | taskmanager.js:166 | the filtered list is a subsequence of the input and holds no task with the id. Every other task occurs as often as before. The list is unchanged when no task has the id |
| TaskStore.Delete | taskmanager.js:165-167 | the tasks kept are exactly the old tasks with a different id, with the same multiplicities and in their old relative order. An absent id changes nothing. The counter is untouched |
| TaskStore.SubsequenceKeepsOrder | taskmanager.js:166 | filtering a list with increasing ids keeps them increasing and adds no task |
| TaskStore.DeletePreservesValid | taskmanager.js:165-167 | deleting keeps the store valid |
| TaskStore.DeleteIdempotent | taskmanager.js:165-167 | deleting an id twice is the same as deleting it once |
| TaskStore.FindIndex | taskmanager.js:173 | `find` by id: the position returned holds the id and no earlier task has it; nothing is returned exactly when no task has the id |
| TaskStore.Toggle | taskmanager.js:172-177 | only the first task with the id changes, and in it only the completion flag, which is flipped. Length, order, ids and counter stay. An absent id changes nothing |
| TaskStore.ToggleKeepsIds | taskmanager.js:172-177 | every position keeps its id across a toggle |
| TaskStore.TogglePreservesValid | taskmanager.js:172-177 | toggling keeps the store valid |
| TaskStore.ToggleInvolution | taskmanager.js:172-177 | toggling the same id twice restores the original store |
| Render.Background | taskmanager.js:134-142 | High, Medium and Low give `#ffe5e5`, `#fff8e1` and `#e6ffed`; the colour is empty exactly for any other priority string |
| Render.BackgroundInjective | taskmanager.js:134-142 | the three known priorities get three different colours |
| Render.NameColor | taskmanager.js:146-150 | the name is red exactly when the task is important, otherwise the colour is reset to empty |
| Render.TextDecoration | taskmanager.js:154-158 | the name is struck through exactly when the task is completed, otherwise the decoration is `none` |
| Render.ToggleLabel | taskmanager.js:108 | the button reads "Mark Complete" exactly for an incomplete task and "Mark Incomplete" for a completed one |
| Render.YesNo | taskmanager.js:102-103 | "Yes" exactly for true, "No" for false |
| Render.StyleOf | taskmanager.js:102-158 | the name is red exactly when the task is important and struck through exactly when it is completed; the Important and Completed texts are "Yes" exactly when those flags are set; the button offers "Mark Complete" exactly when the task is not completed; the background is the priority's colour. The Important text is "Yes" exactly when the name is red. The Completed text is "Yes" exactly when the name is struck through. The button offers "Mark Complete" exactly when the name is not struck through. The background is empty exactly for an unknown priority |
| Render.StyleFor | taskmanager.js:125-127 | a row whose id matches no task gets no style |
| Render.ValidFindsOwnPosition | taskmanager.js:126 | in a valid store the lookup by a task's id finds that task's own position |
| Render.RowStyledByOwnTask | taskmanager.js:124-127 | each rendered row is styled after the task it was rendered from, for rows that carry a task's id (one row per task, see "Left out") |
| Render.ToggleDoesWhatLabelSays | taskmanager.js:172-177 | toggling a task from its button gives the strike-through the button label announced (line 108 for the label, 154-158 for the strike-through) |
| Session.SubmitIds | taskmanager.js:36-45 | a submission brings in no id except the counter's current value |
| Session.DeleteIds | taskmanager.js:165-167 | a deletion brings in no id |
| Session.ToggleIds | taskmanager.js:172-177 | a toggle brings in no id |
| Session.StepInvariant | taskmanager.js:19-77 | any single user event keeps the store valid, never lowers the counter and brings in at most the counter's id |
| Session.RunPreservesValid | taskmanager.js:6-7 | after any sequence of events the store is still valid and the counter has not gone down |
| Session.RunNeverReusesIds | taskmanager.js:36 | after any sequence of events, every id below the starting counter belongs to a task that was there at the start, so deleted ids never come back |
| Session.TrimPaddedName | taskmanager.js:22 | trimming "  Call bank " gives "Call bank" |
| Session.SubmitTrimmedName | taskmanager.js:22-45 | a name that needs no trimming is appended as typed, with the counter as id |
| Session.WalkThroughAfterFirst | taskmanager.js:19-77 | the toggle, second add and delete of the walk-through take the one-task store to the store holding only the second task |
| Session.WalkThroughResult | taskmanager.js:19-77 | for any two trimmed non-empty names, adding, completing, adding and deleting the first leaves only the second task, with id 2 and counter 3 |
| Session.Scenario | taskmanager.js:19-77 | the same walk-through with "Buy milk" and "Call bank" |

## Left out

- DOM wiring is not modelled. This covers the `DOMContentLoaded` listener, the form and click listeners, `preventDefault`, `form.reset` and the reset of the priority select to "Medium" (taskmanager.js:10-78). Events reach the model as the `Session.Event` values.
- Building the HTML is not modelled. This covers the `innerHTML` template, `querySelectorAll` and the `.style` assignments (taskmanager.js:87-124 and 130-158; the lookup at 125-127 is `Render.StyleFor`). Only the chosen strings are modelled.
- The name and the `[... priority]` label (taskmanager.js:97-98) go into `innerHTML` unescaped (line 119), so markup in a name or priority is parsed as HTML. The model assumes names and priorities without markup, so that every task renders as exactly one `.task` element carrying its own id.
- Render.RowStyledByOwnTask: holds only under that one-element-per-task assumption. A name containing `<div class="task" data-id="2"></div>` adds an extra `.task` element inside the name's `<strong>`. The styling pass (line 122) styles that element after task 2. The element has no `.task-name-text` of its own, so the colour branch throws at line 147 or 149 and the rest of the styling pass stops. Neither effect is modelled.
- The clock is not modelled. `new Date()` and `toLocaleString()` (taskmanager.js:26, 91) depend on the clock and the locale. The date is an opaque `Timestamp` parameter.
- The `alert` on an empty name and `logTasks` with `JSON.stringify` (taskmanager.js:30, 183-185) are output side effects, so they are not modelled. The rejection itself is the `RejectedEmptyName` outcome.
- `Number(target.dataset.id)` (taskmanager.js:64, 72, 125) is not modelled. Ids are `nat` at the operation boundary. A non-numeric data attribute would give `NaN`, which matches no task, and that is the absent-id case.
- Text.IsWhitespace: lists the ECMAScript WhiteSpace and LineTerminator code points. The Unicode space separators are fixed as they stand in Unicode 15. It does not follow later Unicode versions.
- TaskStore.Submit: the counter is an unbounded `nat`. JavaScript numbers lose integer precision above 2^53. No session reaches that, so it is not modelled.
- `toggleTaskCompletion` updates the task object in place (line 175). Nothing else keeps a reference to the old object, so modelling the store as an immutable value loses nothing.
- Priority validation is not added, because the code has none.
