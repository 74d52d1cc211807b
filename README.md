# Task board model

A Dafny model of the kanban task board in `script.js`, with proofs about it.
The page has a fixed set of columns, each identified by its `data-status`. One of them is `"todo"`.
Tasks are added to "todo" from a text field. A task is dragged between and within columns, and it is deleted with its button.
After each change the board is saved to local storage as a map from each status to that column's task texts. The saved map is loaded back when the page opens.

The model has five modules:

- `Wrappers` (`wrappers.dfy`): the `Option` type.
- `Placement` (`placement.dfy`): `getDragAfterElement`, the fold that picks which task the dragged one is inserted before. These are pure functions, checked against an independent definition: the nearest midpoint below the pointer, with ties going to the earliest candidate.
- `Text` (`text.dfy`): `String.prototype.trim` over the ECMAScript white space and line terminator characters. It is proved equal to its slice characterisation: a blank prefix and a blank suffix removed, with no white space left at either end.
- `Tasks` (`tasks.dfy`): the board as values. It holds:
  - the `Task` datatype, with an identity standing for the DOM element;
  - the column operations `Without`/`Detach` (detach a task), `Move`, `RemoveAt` (remove a row), snapshot and append a stored list;
  - the lemmas about them: conservation, order, no task twice, and save-then-load.

  `Texts`, `Snapshot`, `AppendStored`, `Created` and `EmptyColumns` are plain reference definitions: the texts of a column, the saved map, the texts after loading, the tasks created for a stored list, and the columns of a fresh page. The `Board` methods are proved equal to them, and the lemmas below state their properties.
- `TaskBoard` (`board.dfy`): the page as a `Board` class. Its fields are the columns, the text field, the dragged task (`draggedTask`: `None` when idle), the stored entry and the next element identity. There is one method per handler: `AddTask`, `Delete`, `DragStart`, `DragEnd`, `DragOver`, `SaveTasks` and `LoadTasks`. Each is proved against the `Tasks` functions, and each keeps the invariant `Valid()`: a "todo" column exists, no task is on the board twice, and every identity in use has already been handed out.

## Model

| member | source | states |
|---|---|---|
| Placement.Step | script.js:84-90 | One step of the `reduce`: a candidate replaces the current best only if its offset is negative and strictly greater. Its meaning is given by `Reduce`'s contract. |
| Placement.Reduce | script.js:83-91 | The fold returns a candidate only if its offset `y - mid` is strictly negative, is the largest negative offset, and no earlier candidate has the same offset. It returns the seed exactly when no offset is negative. |
| Placement.DragAfterElement | script.js:80-92 | A returned index is the nearest candidate below the pointer, the earliest one on ties. The result is `None` exactly when no candidate's midpoint is below the pointer, which includes an empty column. |
| Placement.ClosestBelowUnique | script.js:86 | With the strict comparison, at most one candidate is the nearest one below the pointer. |
| Placement.DragAfterElementIsClosestBelow | script.js:80-92 | The result is `Some(k)` if and only if `k` is the nearest candidate below the pointer, earliest on ties. |
| Placement.PointerBetweenFirstAndSecond | script.js:80-92 | With midpoints 10, 50 and 90 and the pointer at 45, the task goes before the second candidate. |
| Text.IsSpace | script.js:43 | The characters `trim` strips: the ECMAScript WhiteSpace and LineTerminator characters. `TrimStartDropsBlankPrefix` and `TrimEndDropsBlankSuffix` use it. |
| Text.TrimStart | script.js:43 | Strips leading white space. `TrimStartDropsBlankPrefix` proves it removes a blank prefix and nothing more. |
| Text.TrimEnd | script.js:43 | Strips trailing white space. `TrimEndDropsBlankSuffix` proves it removes a blank suffix and nothing more. |
| Text.Trim | script.js:43 | `taskInput.value.trim()`. `TrimIsTrimOf` and `TrimOfUnique` prove it is exactly the slice with only white space around it and none at its ends. |
| Text.TrimStartDropsBlankPrefix | script.js:43 | Trimming the start removes a prefix of white space only, and the rest does not start with white space. |
| Text.TrimEndDropsBlankSuffix | script.js:43 | Trimming the end removes a suffix of white space only, and the rest does not end with white space. |
| Text.TrimEmptyIffBlank | script.js:43-44 | The trimmed text is empty exactly when the input is all white space, which is when `addTask` does nothing. |
| Text.TrimIsTrimOf | script.js:43 | `Trim(s)` is a slice of `s` with only white space around it and no white space at its ends. |
| Text.TrimOfUnique | script.js:43 | Any string meeting that slice characterisation equals `Trim(s)`. |
| Text.TrimmedSliceIsTrim | script.js:43 | A non-empty slice with blank surroundings and non-blank ends is `Trim(s)`. |
| Text.TrimTypedEntry | script.js:43-45 | `" Buy milk\n"` trims to `"Buy milk"`. |
| Tasks.TextsConcat | script.js:101 | The texts of two joined runs of tasks are the two lists of texts joined. The load loop relies on this. |
| Tasks.DistinctMeans | script.js:73-75 | `id` stands for element identity, and an element has at most one parent. "No task in the duplicates set" is equivalent to: each task occurs at most once in a column and never in two columns. |
| Tasks.IdsBelowMeans | script.js:116-117 | Created elements are fresh, so every identity in use is below the next one to be handed out. The identity bound over all tasks is equivalent to the same bound column by column. |
| Tasks.Without | script.js:73-75 | A column with the task detached from it. The result is no longer than the column and does not hold the task; `WithoutCounts` proves that it loses every copy of the task and nothing else. |
| Tasks.Detach | script.js:73-75 | The task detached from every column, as `appendChild` and `insertBefore` do before inserting. The keys are unchanged, each column is `Without` the task, and no column holds it. |
| Tasks.WithoutCounts | script.js:73-75 | Detaching a task from a column drops every copy of it and no other task. |
| Tasks.WithoutAbsent | script.js:73-75 | Detaching a task leaves a column that does not hold it unchanged. |
| Tasks.WithoutConcat | script.js:73-75 | Detaching from two joined runs detaches from each. |
| Tasks.WithoutInserted | script.js:73-75 | Detaching a task just inserted into a column that did not hold it gives the column back. |
| Tasks.Move | script.js:71-76 | The drag-over move: detach the task, then insert it into the target column before the selected candidate, or last. It keeps the set of statuses, and the four `Move…` lemmas below give it its meaning. |
| Tasks.MovePlacesTask | script.js:71-76 | After the move, the dragged task is in the target column. It is immediately before the selected candidate, or last when none was selected. |
| Tasks.MoveConserves | script.js:71-76 | After the move, the dragged task occurs exactly once on the board, in the target column. No column gains or loses any other task. |
| Tasks.MoveKeepsOrder | script.js:71-76 | With the dragged task taken out, every column reads exactly as before the move, so no other task is reordered. |
| Tasks.MoveKeepsDistinct | script.js:71-76 | A move keeps the board free of duplicates and keeps the identity bound. |
| Tasks.DetachKeepsDistinct | script.js:73-75 | Detaching a task everywhere keeps the board free of duplicates and keeps the identity bound. |
| Tasks.RelocatedKeepsDistinct | script.js:71-76 | A board that differs from a duplicate-free board only in where the relocated task sits, and holds it exactly once, is duplicate-free. |
| Tasks.RemoveAt | script.js:27 | Removing row `i` shortens the column by one. Rows before `i` stay where they are, and rows after it move up by one. |
| Tasks.DeleteIsDetach | script.js:27 | On a board without duplicates, removing row `i` equals detaching that task from every column. |
| Tasks.RemoveOnlyIsDetach | script.js:27 | Removing the only occurrence of a task equals detaching it everywhere. |
| Tasks.WithoutRemoved | script.js:27 | In a column holding a task once, detaching it equals removing its row. |
| Tasks.DeleteKeepsDistinct | script.js:25-29 | Deleting a row is detaching its task. The board stays free of duplicates, and the deleted task is in no column. |
| Tasks.AppendFreshKeepsDistinct | script.js:44-45 | Appending a task with a fresh identity keeps the board free of duplicates and raises the identity bound by one. |
| Tasks.CreatedFresh | script.js:115-118 | The tasks created for a stored list carry exactly its texts, in order. Their identities are pairwise distinct and lie from `id` up to, but not including, `id` plus the number of texts. |
| Tasks.AppendNothingStored | script.js:112-120 | A stored entry listing no status loads nothing: every column keeps its texts. |
| Tasks.SnapshotAppended | script.js:108-122 | Columns whose texts are the old texts followed by the stored lists have the snapshot `AppendStored` gives. |
| Tasks.SaveThenLoad | script.js:97-122 | Loading a board's snapshot into empty columns with the same statuses gives back the snapshot, column by column and in order. |
| TaskBoard.Board.constructor | script.js:141-142 | On page load the columns are empty, then the stored entry is loaded. With no entry they stay empty; otherwise each column holds its stored texts. The board is valid and idle. |
| TaskBoard.Board.Candidates | script.js:81 | The tasks of a column that compete for the insertion point, `.bg-white:not(.dragging)`. It never includes the dragged task and is no longer than the column. |
| TaskBoard.Board.AddTask | script.js:42-51 | If the trimmed input is empty, nothing changes. Otherwise one new task holding the trimmed text is appended last to "todo", the input becomes empty, and the snapshot is saved. Validity is kept in both cases. |
| TaskBoard.Board.Delete | script.js:25-29 | Only row `i` of that column is removed, so the task is nowhere on the board. Every other column is unchanged, and the snapshot is saved. |
| TaskBoard.Board.DragStart | script.js:55-60 | The dragged task is recorded. |
| TaskBoard.Board.DragEnd | script.js:62-66 | The board is back to idle and the snapshot is saved. |
| TaskBoard.Board.DragOver | script.js:68-77 | When idle, nothing moves. Otherwise the columns become the move of the dragged task to the chosen place: it occurs exactly once, in the target column, and every column without it reads as before. |
| TaskBoard.Board.SnapshotColumns | script.js:98-103 | The loop builds exactly the snapshot of the columns. |
| TaskBoard.Board.SaveTasks | script.js:97-105 | The stored entry becomes the snapshot of the columns. |
| TaskBoard.Board.LoadTasks | script.js:108-122 | With no stored entry nothing changes. Otherwise each stored list is appended in order to the column of its status, and unknown statuses are skipped. Existing tasks stay as a prefix, and validity is kept. |
| TaskBoard.LoadInto | script.js:112-120 | The loop over stored statuses appends each stored list to the matching column and skips the others. Prefixes are kept, no task is on the board twice, and identities stay fresh. |
| TaskBoard.AppendCreated | script.js:115-118 | The inner loop appends exactly the created tasks for the stored texts, in order, and keeps the board free of duplicates. |
| TaskBoard.SaveThenReload | script.js:97-122 | Saving a board and opening a new page with the same columns reproduces every column's texts in order. |

## Left out

- DOM construction, CSS classes, `innerHTML`, `focus()` and listener wiring (script.js:12-39, 127-139) are not modelled. A task is a value: an identity standing for its element, plus its text.
- The deferred `dragging` class (script.js:57-59) is not modelled. `TaskBoard.Board.DragOver` instead requires that the midpoints describe the column without the dragged task.
- Placement.DragAfterElement: the pointer and midpoints are exact reals given as inputs. `getBoundingClientRect`, IEEE doubles and NaN are not modelled.
- `localStorage` and JSON are not modelled. The stored entry is an `Option` of a status-to-texts map. Malformed data, non-array values, an empty or `null` entry, and keys such as `__proto__` are not modelled.
- TaskBoard.Board.SaveTasks: JSON key order follows document order of the columns. The snapshot map has no order, and the columns are a map keyed by status, so each status is assumed to appear on only one column.
- TaskBoard.Board.LoadTasks: stored statuses are visited in an arbitrary order rather than `for…in` order. The order affects only the identities given to new tasks, not any column's texts.
- TaskBoard.Board.LoadTasks: the column of a stored status is looked up by the selector `[data-status="…"]` (script.js:113). The model finds the column of any status, whatever characters it holds. In the script, a `"` in the status makes the selector invalid, so `querySelector` throws and the remaining statuses of the `for…in` loop are not loaded. A `\` starts a CSS escape, so the column is not found and its stored list is skipped. Neither case is modelled.
- TaskBoard.SaveThenReload: assumes that no column status contains `"`, `\` or a line break. For such a status the script's reload does not give the saved texts back, as the previous line explains.
- Tasks.SaveThenLoad: makes the same assumption about column statuses as `SaveThenReload`, for the same reason.
- `stopPropagation` on the delete button (script.js:26) is browser event dispatch and is not modelled.
- TaskBoard.Board.DragOver: with no drag in progress, `appendChild(null)` (no candidate selected, script.js:73) or `insertBefore(null, afterElement)` (a candidate selected, script.js:75) throws. Both are modelled as no change to the board.
- Text.Trim: strings are sequences of Unicode scalar values. Lone UTF-16 surrogates cannot occur, and no normalisation is applied.
- TaskBoard.Board.constructor: the page is assumed to have a "todo" column. Without one, `addTask` throws (script.js:46), because `appendChild` is called on the `null` that `querySelector` returns.
