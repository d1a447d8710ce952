# Kanban board state, modelled in Dafny

This project models the board component of a single-page Kanban editor. The
board keeps two ordered sequences in memory: `columns` (id, title) and `tasks`
(id, content, column id). It also keeps two drag slots, `activeColumn` and
`activeTask`, which hold the item being dragged. Users create, rename and
delete columns. Deleting a column also deletes its tasks. Users create, edit
and delete tasks. Dragging reorders columns and moves tasks between and
within columns. The order of a sequence is the order on screen.

The model has four modules:

- `Sequences` (`sequences.dfy`) holds the list operations the board uses:
  - `ArrayMove`, the sortable list's "remove, then insert at the target index";
  - `Filter` and `FindIndex`, JavaScript's `filter` and `findIndex`;
  - `IsSubsequence`, which states "kept in the same relative order".
- `Decimal` (`decimal.dfy`) renders the number in the default titles
  `Column n` and `Task n`. It is proved injective through a parse round trip.
- `BoardLogic` (`board_logic.dfy`) holds the `Column` and `Task` records and
  one pure function per sequence a handler stores, computing that sequence.
  Next to the functions are lemmas for three things. Deletion removes exactly
  the matching elements. The referential invariant (every task names an
  existing column) holds after every operation. Creating a column or a task
  under a fresh id and then deleting it restores the board: both `columns`
  and `tasks` come back.
- `KanbanBoard` (`kanban_board.dfy`) holds the `Board` class. Its four fields
  are the component's four state cells. Its methods are the handlers, and
  each one overwrites exactly the cells its source handler sets. `Valid()` is
  the referential invariant. Most methods keep it unconditionally. Two keep
  it only under a condition: `CreateTask` needs its column to exist, and
  `OnDragOver` needs the column a task is dragged over to exist.
  `OnDragStart` touches only the two drag slots, so it keeps the invariant
  through its frame.

Ids are integers, as `generateId` returns. The file that declares the id type
(`./Types`) is not part of this model. Fresh ids are parameters.

## Model

| member | source | states |
|---|---|---|
| `Sequences.ArrayMove` | src/components/KanbanBoard.tsx:131 | the moved element lands at the target index; taking it out there leaves the same sequence as taking it out of the input at the source index; the multiset is unchanged |
| `Sequences.ArrayMoveAt` | src/components/KanbanBoard.tsx:131 | index-by-index reference: elements between the two indices shift by one towards the source index, the rest stay |
| `Sequences.ArrayMoveUnique` | src/components/KanbanBoard.tsx:131 | any sequence with the moved element at the target and the others in their old order equals the move |
| `Sequences.ArrayMoveSelf` | src/components/KanbanBoard.tsx:173 | a move from an index to itself is the identity |
| `Sequences.ArrayMoveUndo` | src/components/KanbanBoard.tsx:131 | moving back from the target to the source index restores the input |
| `Sequences.Filter` | src/components/KanbanBoard.tsx:49-52 | the result is a subsequence of the input (order kept) and every element in it passes the test |
| `Sequences.FilterCount` | src/components/KanbanBoard.tsx:49-52 | an element passing the test occurs in the result exactly as often as in the input; one failing it does not occur |
| `Sequences.FilterMember` | src/components/KanbanBoard.tsx:81 | an element is in the result if and only if it is in the input and passes the test |
| `Sequences.FindIndex` | src/components/KanbanBoard.tsx:123-129 | the first index whose element passes the test, or -1 exactly when no element does |
| `Decimal.NatToString` | src/components/KanbanBoard.tsx:39 | a non-empty string of decimal digits without a leading zero |
| `Decimal.StringToNatOfNatToString` | src/components/KanbanBoard.tsx:39 | reading the rendered number gives it back |
| `Decimal.NatToStringInjective` | src/components/KanbanBoard.tsx:39 | different counts render to different digit strings |
| `BoardLogic.TasksOf` | src/components/KanbanBoard.tsx:199 | a column's view holds only tasks of that column, in board order |
| `BoardLogic.TasksOfCount` | src/components/KanbanBoard.tsx:199 | every task of the column appears in its view as often as on the board; no task of another column appears |
| `BoardLogic.AppendColumn` | src/components/KanbanBoard.tsx:36-43 | one column is appended with the given id and title `Column n+1` for n old columns; the old columns are an unchanged prefix; the id set gains the new id |
| `BoardLogic.RemoveColumn` | src/components/KanbanBoard.tsx:49-50 | the result keeps the old relative order and no column with the deleted id survives |
| `BoardLogic.RemoveColumnKeepsOthers` | src/components/KanbanBoard.tsx:49 | every column with another id survives, with its multiplicity |
| `BoardLogic.RemoveColumnIds` | src/components/KanbanBoard.tsx:49 | the column id set loses exactly the deleted id |
| `BoardLogic.RemoveColumnTasks` | src/components/KanbanBoard.tsx:52-53 | the cascade keeps the old relative order and no task of the deleted column survives |
| `BoardLogic.RemoveColumnTasksKeepsOthers` | src/components/KanbanBoard.tsx:52 | every task of another column survives, with its multiplicity |
| `BoardLogic.RemoveColumnTasksKeepsOtherViews` | src/components/KanbanBoard.tsx:52 | every other column's task view is the same after the cascade |
| `BoardLogic.RenameColumn` | src/components/KanbanBoard.tsx:56-67 | length, order and every id are kept; matching columns get the new title; all other columns are unchanged; the id set is unchanged |
| `BoardLogic.RenameColumnLastWins` | src/components/KanbanBoard.tsx:56-67 | renaming twice equals renaming once to the later title |
| `BoardLogic.ColumnIndex` | src/components/KanbanBoard.tsx:123-129 | the first index of a column with the id, or -1 exactly when no column has it |
| `BoardLogic.ReorderColumns` | src/components/KanbanBoard.tsx:122-132 | a permutation of the columns, with the dragged column at the over column's former index and the others in their old relative order; the id set is unchanged |
| `BoardLogic.ReorderColumnsOntoItself` | src/components/KanbanBoard.tsx:120-131 | reordering a column onto itself leaves the columns unchanged |
| `BoardLogic.AppendTask` | src/components/KanbanBoard.tsx:70-78 | one task is appended with the given id and column and content `Task n+1` for n tasks on the board; the old tasks are an unchanged prefix |
| `BoardLogic.RemoveTask` | src/components/KanbanBoard.tsx:80-83 | the result keeps the old relative order and no task with the deleted id survives |
| `BoardLogic.RemoveTaskKeepsOthers` | src/components/KanbanBoard.tsx:81 | every task with another id survives, with its multiplicity |
| `BoardLogic.EditTask` | src/components/KanbanBoard.tsx:85-95 | length, order, every id and every column id are kept; matching tasks get the new content; all other tasks are unchanged |
| `BoardLogic.EditTaskLastWins` | src/components/KanbanBoard.tsx:85-95 | editing twice equals editing once to the later content |
| `BoardLogic.TaskIndex` | src/components/KanbanBoard.tsx:154-155 | the first index of a task with the id, or -1 exactly when no task has it |
| `BoardLogic.TaskOverTaskAdjacent` | src/components/KanbanBoard.tsx:152-161 | the dragged task ends next to the task it was dragged over: that task sits just before it after a downward drag and just after it after an upward drag |
| `BoardLogic.TaskOverTask` | src/components/KanbanBoard.tsx:152-161 | the dragged task, now carrying the over task's column id, sits at the over task's former index; the other tasks are unchanged and keep their relative order |
| `BoardLogic.TaskIdListArrayMove` | src/components/KanbanBoard.tsx:159 | listing task ids commutes with the move |
| `BoardLogic.TaskOverTaskKeepsTaskIds` | src/components/KanbanBoard.tsx:152-160 | the multiset of task ids is unchanged |
| `BoardLogic.TaskOverColumn` | src/components/KanbanBoard.tsx:167-175 | only the dragged task's column id changes, to the column's id; the order and every other task are unchanged |
| `BoardLogic.AppendColumnKeepsRefs` | src/components/KanbanBoard.tsx:36-43 | creating a column keeps every task's column reference valid |
| `BoardLogic.RemoveColumnKeepsRefs` | src/components/KanbanBoard.tsx:48-54 | deleting a column together with its tasks keeps the references valid |
| `BoardLogic.RemoveColumnAloneBreaksRefs` | src/components/KanbanBoard.tsx:48-54 | without the cascade, a task of the deleted column would name a missing column |
| `BoardLogic.RenameColumnKeepsRefs` | src/components/KanbanBoard.tsx:56-67 | renaming keeps the references valid |
| `BoardLogic.ReorderColumnsKeepsRefs` | src/components/KanbanBoard.tsx:122-132 | reordering columns keeps the references valid |
| `BoardLogic.AppendTaskKeepsRefs` | src/components/ColumnContainer.tsx:151 | creating a task in an existing column, as the column's button does, keeps the references valid |
| `BoardLogic.RemoveTaskKeepsRefs` | src/components/KanbanBoard.tsx:80-83 | deleting a task keeps the references valid |
| `BoardLogic.EditTaskKeepsRefs` | src/components/KanbanBoard.tsx:85-95 | editing a task keeps the references valid |
| `BoardLogic.TaskOverTaskKeepsRefs` | src/components/KanbanBoard.tsx:157 | copying the over task's column id keeps the references valid |
| `BoardLogic.TaskOverColumnKeepsRefs` | src/components/KanbanBoard.tsx:171 | assigning an existing column's id keeps the references valid |
| `BoardLogic.RemoveColumnUndoesAppend` | src/components/KanbanBoard.tsx:36-54 | deleting a column just created under a fresh id restores the columns |
| `BoardLogic.RemoveColumnTasksOfFreshId` | src/components/KanbanBoard.tsx:48-54 | on a valid board, the cascade of deleting a column under an id no column uses keeps every task, so deleting a just-created column restores the tasks too |
| `BoardLogic.RemoveTaskUndoesAppend` | src/components/KanbanBoard.tsx:70-83 | deleting a task just created under a fresh id restores the tasks |
| `BoardLogic.DeleteColumnScenario` | src/components/KanbanBoard.tsx:48-54 | with columns 1 and 2 and one task in column 1, deleting column 1 leaves column 2 and no task |
| `BoardLogic.ReorderColumnsScenario` | src/components/KanbanBoard.tsx:122-131 | three columns with distinct ids, the first dropped on the third, become second, third, first |
| `KanbanBoard.Board.constructor` | src/components/KanbanBoard.tsx:20-23 | the board starts with no columns, no tasks, empty drag slots, and valid |
| `KanbanBoard.Board.CreateNewColumn` | src/components/KanbanBoard.tsx:36-43 | only `columns` changes, to the appended sequence; validity is kept |
| `KanbanBoard.Board.DeleteColumn` | src/components/KanbanBoard.tsx:48-54 | `columns` and `tasks` change to the filtered sequences, with the cascade; validity is kept |
| `KanbanBoard.Board.UpdateColumn` | src/components/KanbanBoard.tsx:56-67 | only `columns` changes, to the renamed sequence; validity is kept |
| `KanbanBoard.Board.CreateTask` | src/components/KanbanBoard.tsx:70-78 | only `tasks` changes, to the appended sequence; validity is kept when the column exists |
| `KanbanBoard.Board.DeleteTask` | src/components/KanbanBoard.tsx:80-83 | only `tasks` changes, to the filtered sequence; validity is kept |
| `KanbanBoard.Board.UpdateTask` | src/components/KanbanBoard.tsx:85-95 | only `tasks` changes, to the edited sequence; validity is kept |
| `KanbanBoard.Board.OnDragStart` | src/components/KanbanBoard.tsx:98-107 | a "Column" payload fills `activeColumn`, a "Task" payload fills `activeTask`, and any other payload changes neither slot; validity is kept |
| `KanbanBoard.Board.OnDragEnd` | src/components/KanbanBoard.tsx:109-133 | both slots are cleared in every case; `columns` is unchanged when there is no `over` or the two ids are equal, and is otherwise the reorder; validity is kept |
| `KanbanBoard.Board.OnDragOver` | src/components/KanbanBoard.tsx:135-176 | `tasks` is unchanged unless a task is dragged over a different item; over a task it becomes the task-over-task result and over a column the task-over-column result; validity is kept when a column dragged over exists |

## Left out

- Rendering, JSX, and the per-column edit-mode and hover toggles of
  `src/components/ColumnContainer.tsx` and `src/components/TaskCard.tsx` are
  presentation. The column's task-count badge is a fixed "0" and is not
  modelled. The per-column view `tasks.filter(...)` is kept as
  `BoardLogic.TasksOf`.
- The drag-and-drop library is outside this model. This covers the pointer
  sensor and its 5-pixel activation distance, collision detection, the drag
  overlay, the portal, and the memoised `columnsId` list. Its `arrayMove` is
  modelled as remove-then-insert on valid indices. Its source is not part of
  this model.
- `generateId` draws `Math.floor(Math.random() * 10001)` and does not check
  for collisions. Randomness is not modelled: the fresh id is a parameter and
  need not be unused. Only the two creation-then-deletion lemmas assume a
  fresh id.
- `findIndex` returning -1 is not modelled. `ReorderColumns`, `TaskOverTask`
  and `TaskOverColumn` require their ids to be present. The source would
  hand -1 to `arrayMove` or index `tasks[-1]`. What follows then depends on
  library internals or crashes.
- `KanbanBoard.Board.OnDragEnd`: requires both ids to be column ids whenever
  there is an `over` with a different id. The source also runs the column
  reorder when a task drag ends over a different item. Then the active index
  is -1. The over index is -1 when the drag ends over a task. When it ends
  over a column, the over index is that column's real index `j`, and the
  source calls `arrayMove(columns, -1, j)`. Either way the outcome depends on
  how `arrayMove` treats a negative index, which is outside this model. A
  column drag that ends over a task card is excluded as well: there the
  active index is real and the over index is -1.
- `KanbanBoard.Board.OnDragOver`: requires the dragged task's id to be
  present when a task is dragged over another task or over a column. In the
  task-over-task case it also requires the over task's id to be present.
- The handlers at lines 157 and 171 write the new column id into the previous
  state's task object before `arrayMove` copies the array. That aliasing is
  not modelled: each handler yields new sequences. React's batching of state
  updates is also left out; each update is applied in order.
- The board registers no drag-cancel handler, so a cancelled drag leaves the
  slots as they were. Nothing is modelled for it.
