# Task table of the SimSo model window

This project models, in Dafny, the task tab of the SimSo model window
(`simsogui/ModelWindow/TasksTab.py`). Its core is the handler that runs when a
cell of the task table changes (`TasksTable._cell_changed`), together with the
operations that add and remove tasks. It also covers the "Followed by" boxes,
the replacement of the custom data schema (`CustomDataBar.edit`) and the
generation of a whole task set (`TasksTab.generate`).

The model has three layers:

- `PyText.dfy` (module `PyText`) models the Python built-ins the handler relies
  on: `str.strip`, the decimal subset of `int()` and `float()` on text,
  `str.split(',')`, `str()` of an int and `sorted()`.
- `Tasks.dfy` (module `Tasks`) holds the task record and what one edit of one
  cell does to the record of its row. That is the parse, the assertion and the
  assignment of each branch of the try block, giving `Accepted`, `Rejected`
  (ValueError or AssertionError) or `Escaped` (an exception the handler does not
  catch). It also holds the candidate lists of the "Followed by" boxes and the
  smallest unused identifier.
- `TasksTab.dfy` (module `TasksTab`) holds the widgets as classes whose methods
  update their fields:
  - a `Configuration` holding the task list and the data schema;
  - the `TasksTable` with its two re-entrancy flags and its per-row "Followed by"
    boxes;
  - the `CustomDataBar`;
  - the `TaskTab` that generates task sets.
- `Rows.dfy` (module `Rows`) says what deleting table rows by position leaves
  behind.

Numbers are exact: `float()` yields a `real` and `int()` an unbounded `int`.

## Model

| member | source | states |
|---|---|---|
| Tasks.RealColumnEdit | simsogui/ModelWindow/TasksTab.py:442-482 | a real column (activation date, period, deadline, WCET, ACET, ET std dev, base CPI, MIX) is assigned iff `float()` reads the text and the value passes the column's range assertion; the value is stored and nothing else changes; otherwise the edit is rejected |
| Tasks.CountColumnEdit | simsogui/ModelWindow/TasksTab.py:475-486 | n_instr and preemption_cost are assigned iff `int()` reads a non-negative integer; only that attribute changes |
| Tasks.IdentifierEdit | simsogui/ModelWindow/TasksTab.py:424-426 | the id column accepts every integer `int()` reads (no range or uniqueness check) and changes only the identifier |
| Tasks.ReenterIdentifier | simsogui/ModelWindow/TasksTab.py:424-426 | committing the text `str()` shows for the identifier leaves the task unchanged |
| Tasks.NameEdit | simsogui/ModelWindow/TasksTab.py:427-430 | a name is accepted iff its stripped text matches `^[a-zA-Z][a-zA-Z0-9 _-]+$` (hence at least two characters); the unstripped text is stored and nothing else changes |
| Tasks.NewTaskNameAccepted | simsogui/ModelWindow/TasksTab.py:572 | the name "TASK T<id>" given to a new task passes the name check |
| Tasks.CritLevelEdit | simsogui/ModelWindow/TasksTab.py:510-513 | crit_level is assigned iff the integer is in [0, nr_crit_levels); only crit_level changes |
| Tasks.ReenterCritLevel | simsogui/ModelWindow/TasksTab.py:510-513 | re-committing the shown criticality level, when it is in range, leaves the task unchanged |
| Tasks.ReenterNInstr | simsogui/ModelWindow/TasksTab.py:475-478 | re-committing the shown non-negative n_instr leaves the task unchanged |
| Tasks.ReenterPreemptionCost | simsogui/ModelWindow/TasksTab.py:483-486 | re-committing the shown non-negative preemption_cost leaves the task unchanged |
| Tasks.ListWcetsEdit | simsogui/ModelWindow/TasksTab.py:514-521 | the list is rejected unless every piece parses, nr_crit_levels >= 1 and its length equals nr_crit_levels; otherwise it is stored; wcet becomes its entry at crit_level (Python indexing, negative from the end); a level outside [-n, n) raises an uncaught IndexError after the list is stored and leaves wcet as it was |
| Tasks.WcetsStored | simsogui/ModelWindow/TasksTab.py:516-520 | once the list is read: the length rule, the stored list and the WCET taken at crit_level, as in ListWcetsEdit |
| Tasks.ListWcetsAtLevel | simsogui/ModelWindow/TasksTab.py:514-521 | with 0 <= crit_level < nr_crit_levels the edit never escapes, and an accepted list has nr_crit_levels entries with wcet equal to the entry at crit_level |
| Tasks.StaleCritLevel | simsogui/ModelWindow/TasksTab.py:494-521 | lowering nr_crit_levels to n <= crit_level keeps crit_level, so every well-formed WCET list of length n is stored and then raises an uncaught IndexError |
| Tasks.WcetDeviationsEdit | simsogui/ModelWindow/TasksTab.py:522-528 | deviations follow the same length rule as list_wcets; only wcet_deviations changes |
| Tasks.ActivationDatesEdit | simsogui/ModelWindow/TasksTab.py:450-453 | any list `float()` reads is accepted, with no range check, and stored as an ascending permutation of the typed values; nothing else changes |
| Tasks.ActivationDatesCanonical | simsogui/ModelWindow/TasksTab.py:450-453 | the stored list equals every ascending permutation of the typed values |
| Tasks.CustomFieldEdit | simsogui/ModelWindow/TasksTab.py:529-533 | through `Convert`, the converter registered for the field's type: a key missing from the schema raises an uncaught KeyError and leaves the task unchanged; otherwise the edit is accepted iff the text converts under the registered type, and only that data key changes |
| Tasks.BoolFieldAcceptsAnyText | simsogui/ModelWindow/TasksTab.py:17-22 | `bool` of a string is True for any non-empty text: a bool field accepts everything and stores "False" as true |
| Tasks.EditTaskWrites | simsogui/ModelWindow/TasksTab.py:423-533 | `EditTask`, the try block on one row, dispatching on the column: an edit that is accepted, or that raises after assigning, writes only the attributes its column owns (list_wcets also writes wcet; the stack-file column writes nothing) |
| Tasks.WithCritLevels | simsogui/ModelWindow/TasksTab.py:500-504 | what an accepted nr_crit_levels edit gives each task: the level count, empty WCET and deviation lists and a WCET of 0; crit_level and every other attribute are kept |
| Tasks.FollowableRows | simsogui/ModelWindow/TasksTab.py:354-356 | a row offers exactly the other rows whose task is APeriodic, in table order |
| Tasks.FollowedByCandidates | simsogui/ModelWindow/TasksTab.py:354-356 | a box lists the blank, then "name (identifier)" for each followable row, in order |
| Tasks.FirstEndingWith | simsogui/ModelWindow/TasksTab.py:359-363 | the search stops at the first item ending with the suffix; it gives 0 only when item 0 matches or no item from the start position on does |
| Tasks.ParenGroupOfItemText | simsogui/ModelWindow/TasksTab.py:487-493 | for a name without a line break, the group the regular expression captures from an item (`ParenGroup`) is the task's identifier as `str()` writes it |
| Tasks.SuffixOfItemText | simsogui/ModelWindow/TasksTab.py:359-361 | an item "name (a)" ends with " (b)" only when a is b |
| Tasks.FollowedByChoice | simsogui/ModelWindow/TasksTab.py:487-493 | `EditFollowed`: choosing the blank clears followed_by; choosing a task's item sets followed_by to that task's identifier, and that task is another row's and APeriodic |
| Tasks.FollowedByShown | simsogui/ModelWindow/TasksTab.py:349-364 | when no task name holds a line break: the item a box shows (`SelectedItem`) is one of its items, and committing it through `EditFollowed` leaves the task unchanged; if it is the blank, committing it clears followed_by |
| Tasks.FollowedByFound | simsogui/ModelWindow/TasksTab.py:349-364 | when no task name holds a line break and followed_by names the non-zero identifier of another APeriodic row, the box shows a task's item and not the blank, and committing it leaves the task unchanged |
| Tasks.PruneData | simsogui/ModelWindow/TasksTab.py:44-46 | a task's data keeps exactly its keys that are still fields, with their values |
| Tasks.NewTask | simsogui/ModelWindow/TasksTab.py:572-574 | a new task is the defaults with the new identifier and the name "TASK T<id>" |
| Tasks.SmallestUnusedBound | simsogui/ModelWindow/TasksTab.py:567-570 | the identifier add_task picks is between 1 and the number of tasks plus one |
| Tasks.SmallestUnusedUnique | simsogui/ModelWindow/TasksTab.py:567-570 | that identifier is unique |
| PyText.SortAscending | simsogui/ModelWindow/TasksTab.py:451-452 | `sorted()` returns an ascending permutation of its input |
| PyText.ParseFloats | simsogui/ModelWindow/TasksTab.py:515 | `list(map(float, ...))`, with `ParseFloat` as `float()` on text, succeeds iff every piece parses, and gives one value per piece |
| PyText.ParseIntOfIntToString | simsogui/ModelWindow/TasksTab.py:376 | `ParseInt`, `int()` on text, of the text `str()` writes for an integer gives that integer back |
| PyText.Strip | simsogui/ModelWindow/TasksTab.py:428 | `str.strip()` leaves no white space at either end and returns text that has none unchanged |
| PyText.StripCut | simsogui/ModelWindow/TasksTab.py:428 | `str.strip()` removes white space from the two ends and nothing else: the result is a run of the text preceded and followed only by white space |
| PyText.Split | simsogui/ModelWindow/TasksTab.py:515 | `str.split(',')` gives pieces without a comma; the first is the text before the first comma, and joining the pieces with commas gives the text back |
| PyText.SplitCount | simsogui/ModelWindow/TasksTab.py:515 | the text has one piece more than it has commas |
| Rows.DescendingDistinct | simsogui/ModelWindow/TasksTab.py:557-558 | the rows to delete are the distinct selected rows, in strictly descending order |
| Rows.DescendingPrefix | simsogui/ModelWindow/TasksTab.py:557-561 | going along the strictly descending deletion order, each position is below every position already deleted |
| Rows.DeleteBelow | simsogui/ModelWindow/TasksTab.py:559-561 | deleting a position below every position deleted so far removes exactly that original row |
| Rows.DeleteNext | simsogui/ModelWindow/TasksTab.py:559-561 | the step of the deletion loop: deleting a position below all those deleted so far leaves what was left without its element at that position |
| Rows.RemoveRows | simsogui/ModelWindow/TasksTab.py:556-562 | after the deletion, exactly the selected rows are gone and the others remain in their order |
| TasksTab.EditTaskSet | simsogui/ModelWindow/TasksTab.py:423-539 | the try block and its except clause on the whole task set: the edit commits, rolls back with the set unchanged and the handler disarmed, or raises; outside nr_crit_levels, only the edited row changes and only in the attributes of its column |
| TasksTab.CritLevelsEdit | simsogui/ModelWindow/TasksTab.py:494-509 | an nr_crit_levels edit on the whole set never raises: it commits and re-arms the handler, or rolls back, leaving the set as it was and the handler disarmed; the set keeps its size (what a commit assigns is stated by NrCritLevelsEdit) |
| TasksTab.RowEdit | simsogui/ModelWindow/TasksTab.py:423-539 | an edit of any other column on the whole set, through `Settle`: only the edited row can change, and only in the attributes its column writes |
| TasksTab.NrCritLevelsEdit | simsogui/ModelWindow/TasksTab.py:494-509 | an nr_crit_levels edit commits iff `int()` reads a value n >= 1; every task, not only the edited one, then gets n levels, empty lists and wcet 0, and keeps its crit_level |
| TasksTab.CritLevelsShared | simsogui/ModelWindow/TasksTab.py:500-504 | after that edit, every task has the same number of levels, at least 1 |
| TasksTab.CommitOrUnchanged | simsogui/ModelWindow/TasksTab.py:537-539 | for a single-row column, the set commits exactly when the row's edit is accepted, and rolls back exactly when it is rejected |
| TasksTab.GeneratedTasks | simsogui/ModelWindow/TasksTab.py:65-105 | built from `GeneratedTask` per triple: task i of a generated set has identifier i and name "Task i", with deadline equal to period and the drawn period and WCET; the first `periodic` tasks keep the default type, the others are Sporadic; mixed-criticality periodic tasks get the class, the levels and the drawn criticality level; for a mixed-criticality set the caller passes as `periodic` the generator's periodic plus sporadic count, so none of those tasks becomes Sporadic |
| TasksTab.GeneratedDefaults | simsogui/ModelWindow/TasksTab.py:70-104 | a generated task equals the configuration defaults outside the attributes its branch passes to add_task: name, identifier, period, WCET and deadline always; type and activation dates for a sporadic task; class, levels, criticality level, WCET list and deviations for a mixed-criticality periodic task |
| TasksTab.GeneratedIdentifiers | simsogui/ModelWindow/TasksTab.py:70-74 | generated identifiers are distinct, and the next task added by hand gets n + 1 |
| TasksTab.Configuration.AddTask | simsogui/ModelWindow/TasksTab.py:574 | the configuration appends the new task at the end of its list |
| TasksTab.TasksTable.constructor | simsogui/ModelWindow/TasksTab.py:119-162 | a new table has one row per task and fresh boxes, with the handler armed |
| TasksTab.TasksTable.RefreshTable | simsogui/ModelWindow/TasksTab.py:193-206 | a refresh rebuilds one row per task, fills every box, and re-arms the handler |
| TasksTab.TasksTable.UpdateFollowedBy | simsogui/ModelWindow/TasksTab.py:349-364 | every box holds its row's candidates and shows the item of its task's followed_by (the blank when it is None or 0); cell-change notifications are ignored only while the boxes are being filled |
| TasksTab.TasksTable.FillBox | simsogui/ModelWindow/TasksTab.py:354-363 | one pass of the loop: the row's box gets the row's candidates and shows `SelectedItem` of them; no other box changes |
| TasksTab.FindFollowed | simsogui/ModelWindow/TasksTab.py:358-363 | the loop finds `SelectedItem`: the first item ending with " (<followed_by>)" when followed_by is set and not 0, none before it matching; it gives the blank item 0 when followed_by is unset or 0, or when no item matches |
| TasksTab.TasksTable.TryEdit | simsogui/ModelWindow/TasksTab.py:423-539 | the task set and the handler flag become what EditTaskSet says; the boxes are refilled after a commit and left as they were otherwise |
| TasksTab.TasksTable.EditCritLevels | simsogui/ModelWindow/TasksTab.py:494-509 | a text that `int()` does not read as some n >= 1 rolls back and disarms the handler; otherwise every task gets n levels and the boxes are refilled |
| TasksTab.TasksTable.SettleRow | simsogui/ModelWindow/TasksTab.py:535-539 | once the edit of the row is known: an accepted edit is assigned and the boxes are refilled; a rejected one assigns nothing and disarms the handler; one that raises keeps what it assigned |
| TasksTab.TasksTable.CellChanged | simsogui/ModelWindow/TasksTab.py:366-539 | a notification while the table writes is ignored; the first one after a rollback only re-arms the handler; otherwise a row past the table raises IndexError with nothing changed and the handler still armed, and for a row of the table the task set and the flag become what EditTaskSet says, and after a commit the boxes are refilled |
| TasksTab.TasksTable.CommitCritLevels | simsogui/ModelWindow/TasksTab.py:494-509 | the loop gives every task WithCritLevels of its old record, then refills the boxes |
| TasksTab.TasksTable.RemoveAllTasks | simsogui/ModelWindow/TasksTab.py:550-554 | the loop deletes the first task and row until none is left; the task list ends empty and the table has no rows |
| TasksTab.TasksTable.DeleteRow | simsogui/ModelWindow/TasksTab.py:559-561 | one deletion removes the same position from the task list and from the table |
| TasksTab.TasksTable.DeleteKept | simsogui/ModelWindow/TasksTab.py:559-561 | one pass of the deletion loop: when the tasks and rows left are the original ones without a set of positions all above the index, deleting the index leaves them without that set and the index |
| TasksTab.TasksTable.RemoveSelectedTasks | simsogui/ModelWindow/TasksTab.py:556-562 | the task list and the rows become Keep of the selected positions: the selected tasks are gone and the rest keep their order |
| TasksTab.TasksTable.AddTask | simsogui/ModelWindow/TasksTab.py:564-579 | the identifier is the smallest positive one no task has; without a task, a default task with that identifier and the name "TASK T<id>" is appended; a row is added and the boxes are refilled |
| TasksTab.CustomDataBar.Edit | simsogui/ModelWindow/TasksTab.py:39-47 | an accepted dialog replaces the schema, prunes every task's data to the new fields, keeps every other attribute, and rebuilds the table; a cancelled dialog changes nothing |
| TasksTab.TaskTab.AddGenerated | simsogui/ModelWindow/TasksTab.py:74-104 | one step of the generation loop: the task the configuration builds for the i-th triple is appended and a row is added, with the boxes refilled |
| TasksTab.TaskTab.Generate | simsogui/ModelWindow/TasksTab.py:65-105 | an accepted dialog removes every task, and the set then equals GeneratedTasks of the drawn triples, with a fresh table; a cancelled dialog changes nothing |

## Left out

- Qt display work is not modelled: cell text and alignment, flags, colours, headers, column sizes and the greying of fields a task type does not use (`_show_period`, `_show_criticality_fields`). The text `str()` writes for a float is left out too, along with its binary64 rounding, `inf` and `nan`.
- Re-entrant notifications are not modelled. Qt delivers `cellChanged` synchronously for each `setText` that changes a cell's text, including the ones the handler makes itself. Each call to `CellChanged` here is one notification: a user's edit, or the echo of the rollback's own `setText(old_value)` (TasksTab.py:538-539), which is why the call after a rollback only re-arms the handler. The notifications nested inside one call are not replayed. They come from the text rewrites of the abort, list_wcets, deviations and activation dates columns, and from the per-row texts an nr_crit_levels edit writes.
- TasksTab.CritLevelsEdit: keeps every task's crit_level, as the assignments of the nr_crit_levels branch do. Whether the nested notifications of that branch set a row's crit_level to 0 depends on the state of the handler's flag when the '0' reaches that row's crit_level cell, which the earlier nested notifications decide. A nested list_wcets or deviations notification on a cell that held text runs its branch on an empty text, which `float()` refuses, so the handler is disarmed. The next nested notification is then swallowed as if it were an echo. If that one is the crit_level '0', crit_level keeps its old value. If the last of them leaves the handler disarmed, the user's next edit is swallowed. The state `Tasks.StaleCritLevel` describes is therefore reachable.
- `Tasks.WithCritLevels`: every task gets its own empty lists. The source shares one list object between all tasks; no code in this file mutates that shared list.
- `conf_changed`, `update_path`, `etm_changed`, `_cell_activated`, the stack-file dialog and `keyPressEvent` are not modelled. They touch the file system or column visibility. `keyPressEvent` passes every key on to the table widget, routes Delete to `remove_selected_tasks` and prints the selection on Ctrl+C, which is logging only.
- The generator dialog and `CustomFieldsEditor` are not modelled. Their results become parameters: whether the dialog was accepted, the class, the count of tasks that take the first branch (`get_nb_periodic_tasks()` for a Generic set, `get_mc_nb_tasks()`, the periodic plus sporadic count, for a mixed-criticality one), the level count, the triples and the new schema.
- `gen_arrivals`, `gen_list_wcets` and `gen_wcet_deviations` are random. `Draws` passes them in as functions of the task's position.
- The configuration's `add_task` is not part of this model. Its record becomes the configuration defaults with the given attributes replaced, appended at the end of the task list.
- `RemoveAllTasks` and `RemoveSelectedTasks` do not refill the "Followed by" boxes, as in the source: the remaining boxes may still list removed tasks.
- PyText.ParseInt, PyText.ParseFloat, PyText.Strip: only the decimal, Latin-1 subset of Python's `int()`, `float()` and `str.strip()` is modelled. Python also accepts digit-group underscores ("1_000"), "inf", "infinity" and "nan" in any case, non-ASCII Unicode digits, and Unicode white space such as U+3000 around a name or a number; the model rejects these texts. `float()` rounds to binary64, so "1e-400" becomes 0.0 and huge exponents become inf, while the model keeps the exact real. The members that inherit these limits are Tasks.NameEdit, Tasks.CustomFieldEdit, Tasks.RealColumnEdit, Tasks.CountColumnEdit, Tasks.IdentifierEdit, Tasks.CritLevelEdit, TasksTab.NrCritLevelsEdit, Tasks.ListWcetsEdit, Tasks.WcetDeviationsEdit, Tasks.ActivationDatesEdit and PyText.ParseFloats.
- TasksTab.TasksTable.CellChanged: the row comes from the caller. The class, type and "Followed by" combos call the handler with the row they were built for (TasksTab.py:221-222, 229-230, 265-266), and `remove_selected_tasks` does not rebuild them. After a removal, a combo can therefore report a row past the table, which the model covers (IndexError), or the row of another task. In the second case the source edits that other task with the text of the combo in that row; the model edits the row it is given, with the cell the caller passes, and does not model which widget a combo is.
- Objects are compared by position. The candidate list excludes the task's own row, because Python's `t != task` compares objects by identity; identifiers are compared by value, as in the source.
