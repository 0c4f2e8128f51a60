# Task Tracker: a verified model of the task list

Task Tracker is a single-window desktop to-do list. The application holds an
ordered list of task records. Each record has an identifier, a description,
a status (`todo`, `in-progress` or `done`) and creation and update
timestamps. The application also holds an optional status filter for the
list view. Buttons add a task, edit the selected task's description, delete
the selected task, set its status, and switch the filter. After every change
the whole list is written to a JSON file.

This project models the list and its operations in Dafny, in three modules:

- `Text` (text.dfy): Python's `str.strip(chars)` as `Trim` over
  `seq<char>`, with a predicate telling which characters are in `chars`.
  `str.strip()` with no argument is `Strip`: `Trim` with the characters
  `str.isspace()` accepts.
- `Tasks` (tasks.dfy): the `Task` record and `new_task`. It also holds the
  lookup `next(...)` of the first task with an identifier, the list
  comprehensions as `Keep`, and the list invariant `WellFormed`: unique
  identifiers, non-empty stripped descriptions, offered statuses.
- `Tracker` (tracker.dfy): the class `TaskTrackerApp`. Its fields `tasks`
  and `filterStatus` are the application's two pieces of data state. It has
  one method per button. What the window supplies becomes a parameter:
  - the dialog's answer is an `Option<string>`, with `None` for cancel;
  - the selected row is an `Option<string>` holding its identifier;
  - the delete confirmation is a `bool`;
  - the status box's choice is an index into the offered statuses;
  - the fresh UUID and the `datetime.now().isoformat()` timestamp are
    strings.

  Each method returns an `Outcome`: saved, silently dropped, the
  "Select Task" warning, or the "Task not found." error. A ghost field
  `saves` records every list written to the file, so each method's contract
  states exactly when the file is rewritten.

Where the code and the design description of the system disagree, the model
follows the code:

- Setting a status has no "invalid status" error. The status box is
  read-only: it starts on the task's current status, and the user can only
  pick one of the three offered values.
- Delete removes every task with the selected identifier, not just one.
  Update and set-status change only the first task with that identifier.
- A description or status edit on an identifier that is not in the list
  shows an error and changes nothing.

## Model

| member | source | states |
|---|---|---|
| `Text.TrimStart` | TaskTracker.py:169 | the result is the suffix of the input after its leading run of characters in the trimmed class; everything dropped is in the class and the result does not start with such a character |
| `Text.TrimEnd` | TaskTracker.py:169 | the result is the prefix of the input before its trailing run of characters in the trimmed class; everything dropped is in the class and the result does not end with such a character |
| `Text.Trim` | TaskTracker.py:169 | trimming never lengthens the string, and what is left neither starts nor ends with a character of the trimmed class |
| `Text.Strip` | TaskTracker.py:169-171 | `strip()` never lengthens the string, and its result neither starts nor ends with a character that `str.isspace()` accepts |
| `Text.TrimSlice` | TaskTracker.py:169 | the trimmed string is the contiguous slice of the input that starts right after the leading run; inner characters, whitespace included, are kept |
| `Text.TrimRemoves` | TaskTracker.py:169 | every character removed, before the slice or after it, belongs to the trimmed class |
| `Text.TrimEmpty` | TaskTracker.py:169 | the trimmed string is empty exactly when every character of the input belongs to the trimmed class; for `strip()` this is the `not desc.strip()` test |
| `Text.TrimUnchanged` | TaskTracker.py:189 | a string that neither starts nor ends with a character of the class is left as it is |
| `Text.TrimIdempotent` | TaskTracker.py:187-189 | trimming an already trimmed string changes nothing, so a stored description is a fixed point of `strip()` |
| `Tasks.NewTask` | TaskTracker.py:24-32 | a new record carries the given identifier and description, the status `"todo"` (the first offered status), and equal creation and update times, both `now` |
| `Tasks.StatusChoice` | TaskTracker.py:226-233 | the status the read-only box yields is one of `"todo"`, `"in-progress"`, `"done"` or the task's current status; it is an offered one whenever the user picked one or the current status already was |
| `Tasks.FindFirst` | TaskTracker.py:182 | the lookup yields the position of a task with the identifier, with no such task before it; it yields nothing exactly when no task has the identifier |
| `Tasks.Keep` | TaskTracker.py:165 | the list comprehension yields a subsequence of the list (order kept) that holds each task satisfying the condition as often as the list does, and no other task |
| `Tasks.KeepUnique` | TaskTracker.py:165 | any subsequence with those multiplicities equals the comprehension's result, so the contract of `Keep` determines the filtered view and the list after a delete |
| `Tasks.KeepAll` | TaskTracker.py:201 | when every task passes the condition, for example when no task has the deleted identifier, the comprehension returns the list unchanged |
| `Tasks.AppendUniqueIds` | TaskTracker.py:171-172 | appending a task whose identifier no task in the list has keeps the identifiers unique |
| `Tasks.SubsequenceUniqueIds` | TaskTracker.py:201 | leaving tasks out of a list with unique identifiers leaves the identifiers unique |
| `Tasks.KeepWellFormed` | TaskTracker.py:201 | filtering a well-formed list yields a well-formed list |
| `Tasks.AppendWellFormed` | TaskTracker.py:171-172 | appending a new record built from a non-blank input, whose identifier is not yet in the list, keeps the list well formed |
| `Tasks.ReplaceWellFormed` | TaskTracker.py:189-190 | replacing one task by a well-formed record with the same identifier keeps the list well formed |
| `Tracker.TaskTrackerApp.constructor` | TaskTracker.py:38-39 | the application starts on the loaded list with no filter and nothing saved yet |
| `Tracker.TaskTrackerApp.GetFilteredTasks` | TaskTracker.py:162-165 | with no filter the view is the list itself; otherwise it is the order-preserving subsequence holding exactly the tasks whose status equals the filter, each as often as in the list |
| `Tracker.TaskTrackerApp.AddTask` | TaskTracker.py:167-174 | a cancelled or blank input leaves the list unchanged and saves nothing; any other input appends exactly one new task with the stripped, non-empty description at the end, keeps the earlier tasks unchanged and in order, and saves; a fresh identifier keeps identifiers unique and the list well formed |
| `Tracker.TaskTrackerApp.UpdateTask` | TaskTracker.py:176-192 | no selection gives the warning, an unknown identifier the error, a cancelled or blank input nothing; in each of these cases the list is unchanged and not saved; otherwise only the first matching task's description (now the stripped input) and update time change, its identifier, status and creation time and all other tasks stay, and the list is saved |
| `Tracker.TaskTrackerApp.DeleteTask` | TaskTracker.py:194-203 | no selection gives the warning and an unconfirmed delete does nothing, both without change or save; a confirmed delete leaves exactly the tasks with another identifier, in their order, so none with the deleted identifier remains; an absent identifier leaves the list equal to before; the list is saved either way |
| `Tracker.TaskTrackerApp.SetStatus` | TaskTracker.py:205-238 | no selection gives the warning, an unknown identifier the error, a closed status window nothing; otherwise only the first matching task's status (the box's choice) and update time change, everything else stays, the list is saved and stays well formed |
| `Tracker.TaskTrackerApp.FilterTasks` | TaskTracker.py:243-245 | switching the filter sets the filter and changes neither the list nor the file |

## Left out

- Reading and writing `tasks.json` (TaskTracker.py:10-22): file I/O and JSON
  encoding are left out. The constructor takes the loaded list as a
  parameter. Each write of the list is recorded in the ghost field `saves`.
  The "missing or corrupt file gives an empty list" behaviour is therefore
  not modelled.
- `uuid.uuid4()` and `datetime.now().isoformat()` (TaskTracker.py:25, 27,
  190, 235): they are nondeterministic, so the identifier and the timestamp
  are method parameters.
- The Tk window, its widgets, styling, dialogs and message boxes
  (TaskTracker.py:1-2, 41-141, 217-241): these are presentation code. The
  dialogs' answers are parameters, and the message shown is the returned
  `Outcome`.
- `on_resize` (TaskTracker.py:143-148): it only sizes widget columns, using
  floating point.
- `refresh_tasks` (TaskTracker.py:150-160): it only redraws the tree view
  from `get_filtered_tasks()`, in order, with colour tags.
- The event loop (TaskTracker.py:247-250).
- `Tracker.TaskTrackerApp.SetStatus`: models `set_status` and its dialog
  callback `on_set` as one step. The dialog is modal (`grab_set`), so no
  other action runs between opening it and pressing "Set". The model
  therefore does not capture `on_set` writing to a record that was removed
  from the list in the meantime.
- `Tracker.TaskTrackerApp.DeleteTask`, `UpdateTask`, `SetStatus`: the
  selected identifier is any `Option<string>`. The model does not capture
  that the tree view can only select a row of the current filtered view.
- Python dictionaries are mutable and shared: `get_filtered_tasks` returns
  the list object itself, and the edits change the record in place. Records
  here are values in a sequence. An in-place edit is therefore modelled as
  replacing the element at the found position; no other reference to the
  record is observable.
