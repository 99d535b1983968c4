# Modern todo list: a verified model of its task store and list view

The program is a single-window desktop todo list (`ModernTodoApp` in
`Task-1.py`). It keeps a list of task records in memory. Each record has:

- an integer id
- the task text
- a priority word
- a completed flag
- a creation time
- a completion time, present only while the task is completed

The user can add, complete or uncomplete, edit and delete tasks. Every
change is written to a JSON file, and the scrollable list of cards is
rebuilt. That list is filtered by a combo box ("All", "Pending",
"Completed" or one of the three priorities) and sorted with incomplete
tasks first, then by priority. Two labels show the total, completed and
pending counts.

The model is split into four modules:

- `Text` (`text.dfy`) holds the string operations the handlers use.
  - Python's `str.strip()`, with the full `str.isspace()` character set.
  - `str.split(' ')` and its inverse, a join.
  - The substring test `sub in s`.
  - The priority clean-up `raw.split(' ')[1] if ' ' in raw else raw`, which turns a combo-box entry such as "🔴 High" into "High".
- `Tasks` (`tasks.dfy`) holds the task record and, as pure functions of the list before the operation, what each handler does to the list.
  - `Added`: a fresh id is `max(ids, default=0) + 1`.
  - `ToggleFirst`: only the first task with the id changes.
  - `WithoutId`: every task with the id is removed.
  - `ApplyEdit`: only the first task with the id changes.
  - Each function is proved to keep two invariants: ids are unique, and the completion time is present exactly when the task is completed.
- `View` (`view.dfy`) holds what the list shows.
  - `Classify` follows the selector's if-chain.
  - `Select` builds the filtered list.
  - `DisplaySort` is the stable sort on the key `(completed, rank)`. It is proved to be the only stable ordering.
  - `UpdateStats` gives the counts.
- `App` (`app.dfy`) holds the class `ModernTodoApp`. Its fields are:
  - the task list
  - the filter text
  - the last saved list
  - the cards shown
  - the stats
  
  Its handler methods are proved against the functions in `Tasks` and `View`.

Two details of the program are reproduced on purpose:

- **The "All" filter sorts the store itself.** `get_filtered_tasks` returns `self.tasks` itself for "All" and for an unrecognised selector. `refresh_task_list` sorts that list in place, so under "All" the stored order becomes the display order after every refresh. Under any other filter the store keeps its order. `ModernTodoApp.Valid` records this, and `Refreshed` states the whole effect of a refresh.
- **Duplicate ids are handled unevenly.** When two tasks share an id, `toggle_task` and `edit_task` change only the first one, while `delete_task` removes all of them. Because every toggle ends with a refresh, and under "All" that refresh sorts the store, a second click on the same id may reach a different task. For example, take a pending High task B before a pending Low task A, both with id 1. The first click completes B, and the sort moves A in front of it. The second click then completes A, so both tasks end up completed.

Where the code differs from what its interface suggests, the model follows
the code:

- Toggling or editing an id that no task has is a silent no-op. It is not an error. The toggle still saves and refreshes.
- The priority can be any string. Only the rank used for sorting treats words other than High, Medium and Low specially, ranking them 3.
- Ids are computed, not allocated. When every id is positive, deleting the task with the largest id means the next add gets an id no larger than the deleted one (`DeletedNewestIdComesBack`). It can be the very same id, for example with ids 1 and 2 (`IdReuseExample`). With an id of 0 or below in a loaded file this bound does not hold. For example, deleting the only task, with id 0, makes the next id 1.
- Nothing keeps ids unique in a file that was loaded. The operations keep uniqueness only when it already holds.

## Model

| member | source | states |
|---|---|---|
| Text.Strip | Task-1.py:270 | `strip()` result is empty exactly when the input is all whitespace, and otherwise starts and ends with a non-whitespace character |
| Text.StripOfPadded | Task-1.py:270 | stripping blank padding from both sides of a core with no whitespace at its ends gives the core back (the reference characterisation of `strip`) |
| Text.StripIdempotent | Task-1.py:510 | stripping a stripped text changes nothing |
| Text.SplitOnSpace | Task-1.py:277 | `split(' ')` gives at least one piece, at least two exactly when there is a space, no piece contains a space, and joining the pieces with spaces gives the input back |
| Text.SplitJoin | Task-1.py:277 | splitting the join of space-free pieces gives the pieces back |
| Text.PriorityLabel | Task-1.py:277 | the cleaned priority never contains a space |
| Text.BadgedLabel | Task-1.py:514 | a combo entry made of a badge, one space and a name cleans up to the name |
| Text.PriorityLabelIdempotent | Task-1.py:514 | cleaning an already cleaned priority changes nothing |
| Tasks.MaxId | Task-1.py:280 | the maximum id is at least every id in the list and belongs to some task |
| Tasks.NextId | Task-1.py:280 | the new id is 1 for an empty list, exceeds every id present, and is one more than an id present otherwise |
| Tasks.Added | Task-1.py:269-290 | a blank entry leaves the list unchanged; otherwise one task is appended with the stripped text, the cleaned priority, not completed, no completion time, created at the given time, with an id above every existing one; unique ids and consistent completion times are preserved |
| Tasks.SuccessiveAddIds | Task-1.py:280 | two adds with no deletion between them give consecutive ids |
| Tasks.DeletedNewestIdComesBack | Task-1.py:280 | with positive ids, after deleting the task with the largest id the next add gets an id no larger than the deleted one |
| Tasks.IdReuseExample | Task-1.py:280 | with tasks of ids 1 and 2, deleting 2 and then adding keeps task 1 and gives the new task id 2 |
| Tasks.FirstIndexOf | Task-1.py:446 | the result is the position of a task with the id with none before it, or no position when no task has the id |
| Tasks.FirstIndexAt | Task-1.py:427-434 | a scan that stops at the first task with the id, or at the end, has found the first match |
| Tasks.Toggled | Task-1.py:429-433 | `completed` flips; on completion the completion time is the given time; afterwards the completion time is present exactly when the task is completed; text, id, priority and creation time stay |
| Tasks.ToggleFirst | Task-1.py:427-434 | same length; a task's completion state changes exactly when it is the first with the id; that task's completion time becomes the given time on completion and is removed on un-completion; every other task is identical; nothing but the completion fields changes; no match leaves the list as it was; unique ids and consistency are preserved |
| Tasks.ToggleTwice | Task-1.py:427-434 | applying the loop twice to the same id, with no refresh between, restores every field but the completion time; with consistent records only a task that was complete keeps a trace, its new completion time |
| Tasks.WithoutId | Task-1.py:441 | no task with the id remains; every other task keeps its multiplicity and the survivors keep their order; no match leaves the list as it was |
| Tasks.DeleteKeepsInvariants | Task-1.py:441 | deleting preserves unique ids and consistent completion times |
| Tasks.DeleteIdempotent | Task-1.py:441 | deleting the same id twice is deleting it once |
| Tasks.DeleteRemovesOne | Task-1.py:441 | with unique ids, deleting a present id shortens the list by exactly one |
| Tasks.DialogPriority | Task-1.py:496 | the edit dialog's initial priority text is one badge character, a space and the task's priority |
| Tasks.UntouchedDialogKeepsPriority | Task-1.py:496 | saving the dialog with its priority untouched keeps a space-free priority unchanged |
| Tasks.Retexted | Task-1.py:512-514 | replacing text and priority at one position keeps every id and completion field, changes no other position, and preserves both invariants |
| Tasks.ApplyEdit | Task-1.py:509-515 | an unknown id or blank text leaves the list unchanged; otherwise only the first task with the id changes, getting the stripped non-empty text and the cleaned priority; ids, completion state and timestamps of every task stay; both invariants are preserved |
| Tasks.Where | Task-1.py:556-564 | a list comprehension is no longer than its input and holds exactly the input's tasks that meet the condition |
| View.Classify | Task-1.py:553-566 | the exact text "All" shows all; otherwise the first of the keywords Pending, Completed, High Priority, Medium Priority, Low Priority that the text contains picks its selection, and a text with none of them shows all |
| View.Select | Task-1.py:550-566 | "All" and the fallback return the store itself; every selection keeps the store's order and holds each admitted task exactly as often as the store does, and no other task |
| View.StatusSelectors | Task-1.py:550-558 | "All" shows all, and the badged "Pending" and "Completed" entries select by completion |
| View.HighSelector | Task-1.py:559-560 | the badged "High Priority" entry selects the High tasks, not matching the earlier tests |
| View.MediumSelector | Task-1.py:561-562 | the badged "Medium Priority" entry selects the Medium tasks, not matching the earlier tests |
| View.LowSelector | Task-1.py:563-564 | the badged "Low Priority" entry selects the Low tasks, not matching the earlier tests |
| View.PendingCompletedPartition | Task-1.py:555-558 | the Pending and Completed selections together hold every task of the store exactly as often as the store does; no task is in both, and with unique ids no id is in both |
| View.Rank | Task-1.py:599-600 | the rank is at most 3, and 3 exactly for a priority other than High, Medium and Low |
| View.PriorityRanks | Task-1.py:599-600 | High ranks before Medium, Medium before Low, and Low before any other priority |
| View.DisplaySort | Task-1.py:600 | the sorted list is ordered by the key, is a permutation of the input, and keeps the relative order of tasks with equal keys |
| View.DisplayOrder | Task-1.py:600 | in the sorted list no completed task precedes an incomplete one, and among equally completed tasks High precedes Medium precedes Low precedes other priorities |
| View.SortOfOrdered | Task-1.py:600 | sorting a list already in key order leaves it unchanged |
| View.DisplaySortUnique | Task-1.py:600 | any key-ordered list that keeps every group of equal keys in input order is the sort's result |
| View.SortExample | Task-1.py:599-600 | a pending High task, a completed Low task and a pending Medium task are shown High, Medium, Low |
| View.Shown | Task-1.py:573-603 | the cards are in display order, hold each task the selector admits exactly as often as the store does, and show tasks with equal keys in store order |
| View.UpdateStats | Task-1.py:607-622 | total is the store's length, completed and pending are the sizes of the Completed and Pending selections, pending is total minus completed, and the greeting shows exactly when the store is empty |
| View.StatsIgnoreOrder | Task-1.py:607-609 | the counts depend only on which tasks are stored, so the in-place sort cannot change them |
| App.ModernTodoApp.constructor | Task-1.py:32-38 | the loaded list becomes the store, the filter is "All", and the first refresh sorts the store into display order |
| App.ModernTodoApp.RefreshTaskList | Task-1.py:568-605 | the cards are the selected tasks in display order; under "All" the store is replaced by its sorted self, otherwise untouched; the stats are those of the store; the store keeps its tasks |
| App.ModernTodoApp.SaveAndRefresh | Task-1.py:633-638 | the saved list is the store as it was before the refresh, followed by a refresh |
| App.ModernTodoApp.SelectFilter | Task-1.py:197-206 | choosing a selector sets the filter and refreshes |
| App.ModernTodoApp.AddTask | Task-1.py:269-290 | a blank entry changes nothing; otherwise the saved list is `Added` of the old store, and the store, cards and stats are refreshed from it |
| App.ModernTodoApp.ToggleTask | Task-1.py:426-437 | the saved list is `ToggleFirst` of the old store and the view is refreshed from it; an id no task has changes no task and leaves the store's order as it was |
| App.ModernTodoApp.DeleteTask | Task-1.py:439-443 | declining the prompt changes nothing; confirming saves `WithoutId` of the old store and refreshes from it; an id no task has leaves the store as it was |
| App.ModernTodoApp.EditTask | Task-1.py:445-519 | an unknown id opens nothing and changes nothing; blank text changes nothing; otherwise the saved list is `ApplyEdit` of the old store and the view is refreshed from it |

## Left out

- Widgets, styling, hover effects, the add animation (`root.after`) and the window's placement are presentation only. The cards and the labels are modelled as the data they display.
- The progress percentage `int(completed / total * 100)` uses floating point. `Progress` carries the completed and total counts it is computed from.
- Reading and writing `tasks.json` are I/O and are not modelled. The loaded list is the constructor's argument. Saving is modelled by the `persisted` field.
  - The fallback to an empty list on an unreadable file is not modelled.
  - The error dialog on a failed write is not modelled; a save is taken to succeed.
  - Extra keys in loaded records are not modelled.
  - Records without an `id`, which `add_task` reads as 0, are not modelled.
- Records missing `text`, `priority`, `completed` or `created_at` are not modelled. The program fails with an exception on them when it sorts or draws the list. The `Task` type has every key.
- Records holding values of other types, such as `"completed": 1` or `"priority": 5`, are not modelled. Python compares, tests and prints such values as it does for any object. For example, an integer priority ranks 3 and is drawn as its digits. The `Task` type gives each key one type.
- `datetime.now()` is the `now` parameter of the add and toggle handlers. Timestamps are opaque strings.
- Clearing the add entry after `add_task` is presentation and is not modelled.
- Message boxes are modelled by their outcome only. The warning for blank text is `AddTask` returning false, or `EditOutcome.EmptyText`. The delete confirmation is the `confirmed` parameter.
- `App.ModernTodoApp.EditTask` combines opening the edit dialog and pressing its save button into one call.
  - The program keeps a reference to the record while the dialog is open. The dialog is modal, so no other handler runs in between.
  - Cancelling the dialog changes nothing and is not modelled.
- Strings are sequences of code points. Python's `isspace` is modelled for every whitespace code point, but no normalisation is done.
- `Tasks.UntouchedDialogKeepsPriority`: does not cover priorities that contain a space. Those can come only from a hand-edited data file. The dialog then offers the badge, the priority and its remaining words, and saving unchanged keeps only the first word.
